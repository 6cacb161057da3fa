/**
Writing a framed log under a durability policy, with failing writes, failing
syncs and crashes.

A journal carries the file next to its history: the frames applied, a frame
whose write or sync failed, and how many frames the last successful sync
covered. A crash may cut the file at any byte past that sync. `RunKeepsInv`
covers every run, and `EveryRunRecovers` says what reopening after any crash
of any run finds.
*/
module DurableLog {
  import opened ByteCodec
  import opened LogFrame
  import opened FramedLog

  datatype Durability = Always | EveryBytes(threshold: nat) | Manual

  // How the operating system answers: bytes that reach the file, and whether a sync succeeds.
  datatype Io = Io(written: nat, syncOk: bool)

  datatype Journal = Journal(
    file: Bytes,
    dirty: nat,
    poisoned: bool,
    log: seq<Frame>,
    torn: Option<Frame>,
    synced: nat)

  datatype Written = Accepted(durable: bool) | WriteFailed

  function Frames(j: Journal): seq<Frame> {
    if j.torn.Some? then j.log + [j.torn.value] else j.log
  }

  // Fewer bytes than the policy allows are waiting for a sync.
  predicate WithinPolicy(durability: Durability, j: Journal) {
    match durability
    case Always => j.dirty == 0
    case EveryBytes(threshold) => j.dirty < threshold
    case Manual => true
  }

  ghost predicate Inv<S>(sem: Semantics<S>, durability: Durability, j: Journal) {
    && Sound(sem, Frames(j))
    && j.synced <= |j.log|
    && EndOffset(j.log) <= |j.file| <= EndOffset(Frames(j)) == |LogFile(sem.format, Frames(j))|
    && j.file == LogFile(sem.format, Frames(j))[..|j.file|]
    && (j.torn.Some? ==> j.poisoned)
    && (!j.poisoned ==> j.dirty == EndOffset(j.log) - EndOffset(j.log[..j.synced]) && WithinPolicy(durability, j))
  }

  // ---- Steps ----

  function ShouldSync(durability: Durability, dirty: nat): bool {
    match durability
    case Always => true
    case EveryBytes(threshold) => dirty >= threshold
    case Manual => false
  }

  function WriteFrame(format: Format, durability: Durability, j: Journal, f: Frame, io: Io): (Journal, Written)
    requires FrameFits(f)
  {
    var bytes := EncodeFrame(format, f);
    if io.written < |bytes| then
      (j.(file := j.file + bytes[..io.written], poisoned := true, torn := Some(f)), WriteFailed)
    else
      var dirty := j.dirty + |bytes|;
      var file := j.file + bytes;
      if ShouldSync(durability, dirty) then
        if !io.syncOk then
          (j.(file := file, dirty := dirty, poisoned := true, torn := Some(f)), WriteFailed)
        else
          (j.(file := file, dirty := 0, log := j.log + [f], synced := |j.log| + 1), Accepted(true))
      else
        (j.(file := file, dirty := dirty, log := j.log + [f]), Accepted(false))
  }

  function FlushJournal(j: Journal, io: Io): Journal {
    if io.syncOk then j.(dirty := 0, synced := |j.log|) else j.(poisoned := true)
  }

  // A crash leaves `cut` bytes; opening again scans them, drops the torn tail and syncs the rest.
  ghost function Reopen<S>(sem: Semantics<S>, j: Journal, cut: nat, io: Io): Journal
    requires cut <= |j.file| && DatabaseHeaderOk(sem.format, j.file[..cut])
  {
    var file := j.file[..cut];
    var found := ScanFile(sem, file);
    var frames := Frames(j)[..WholeFrames(Frames(j), cut)];
    Journal(file[..found.offset], 0, !io.syncOk, frames, None, if io.syncOk then |frames| else j.synced)
  }

  // ---- What each step keeps ----

  lemma FreshJournal<S>(sem: Semantics<S>, durability: Durability)
    requires durability != EveryBytes(0)
    ensures Inv(sem, durability, Journal(DatabaseHeader(sem.format), 0, false, [], None, 0))
  {
    var j := Journal(DatabaseHeader(sem.format), 0, false, [], None, 0);
    EncodeLogLength(sem.format, []);
    assert LogFile(sem.format, Frames(j)) == DatabaseHeader(sem.format) + [];
  }

  lemma WriteFrameKeeps<S>(sem: Semantics<S>, durability: Durability, j: Journal, f: Frame, io: Io)
    requires durability != EveryBytes(0)
    requires Inv(sem, durability, j) && !j.poisoned
    requires Admissible(sem.format, f)
    requires sem.apply(Replay(sem, j.log).value, f, EndOffset(j.log)).Accept?
    ensures var (after, w) := WriteFrame(sem.format, durability, j, f, io);
            && Inv(sem, durability, after)
            && (w.Accepted? ==> after.log == j.log + [f] && !after.poisoned)
            && (w.WriteFailed? ==> after.log == j.log && after.poisoned)
            && (w == Accepted(true) ==> after.synced == |after.log|)
            && (w != Accepted(true) ==> after.synced == j.synced)
  {
    hide EncodeFrame, LogFile, LogBytes, Replay;
    var (after, w) := WriteFrame(sem.format, durability, j, f, io);
    var bytes := EncodeFrame(sem.format, f);
    LogSnoc(sem, j.log, f);
    EncodeLogLength(sem.format, j.log);
    EncodeLogLength(sem.format, j.log + [f]);
    assert j.file == LogFile(sem.format, j.log);
    assert Frames(after) == j.log + [f];
    assert LogFile(sem.format, Frames(after)) == j.file + bytes;
    assert Sound(sem, Frames(after));
    assert after.file == (j.file + bytes)[..|after.file|];
    assert (j.log + [f])[..j.synced] == j.log[..j.synced];
    assert (j.log + [f])[..|j.log| + 1] == j.log + [f];
  }

  lemma FlushKeeps<S>(sem: Semantics<S>, durability: Durability, j: Journal, io: Io)
    requires durability != EveryBytes(0)
    requires Inv(sem, durability, j) && !j.poisoned
    ensures Inv(sem, durability, FlushJournal(j, io))
  {
    assert j.log[..|j.log|] == j.log;
  }

  // The bytes of a crash are the bytes of a cut log.
  lemma CrashImage<S>(sem: Semantics<S>, durability: Durability, j: Journal, cut: nat)
    requires Inv(sem, durability, j)
    requires EndOffset(j.log[..j.synced]) <= cut <= |j.file|
    ensures DATABASE_HEADER_BYTES <= cut <= EndOffset(Frames(j))
    ensures j.file[..cut] == LogFile(sem.format, Frames(j))[..cut]
    ensures DatabaseHeaderOk(sem.format, j.file[..cut])
  {
    hide LogFile, LogBytes, Replay, DatabaseHeaderOk;
    CutLogRecovers(sem, Frames(j), cut);
  }

  // Frames covered by a sync survive every later cut.
  lemma SyncedFramesSurvive<S>(sem: Semantics<S>, durability: Durability, j: Journal, cut: nat)
    requires Inv(sem, durability, j)
    requires EndOffset(j.log[..j.synced]) <= cut <= |j.file|
    ensures j.synced <= WholeFrames(Frames(j), cut)
    ensures j.log[..j.synced] <= Frames(j)[..WholeFrames(Frames(j), cut)]
  {
    hide LogBytes, Replay, LogFile;
    assert Frames(j)[..j.synced] == j.log[..j.synced];
    WholeFramesIsGreatest(Frames(j), cut, j.synced);
  }

  lemma ReopenKeeps<S>(sem: Semantics<S>, durability: Durability, j: Journal, cut: nat, io: Io)
    requires durability != EveryBytes(0)
    requires Inv(sem, durability, j)
    requires EndOffset(j.log[..j.synced]) <= cut <= |j.file|
    ensures DatabaseHeaderOk(sem.format, j.file[..cut])
    ensures var after := Reopen(sem, j, cut, io);
            && Inv(sem, durability, after)
            && ScanFile(sem, j.file[..cut]).state == Replay(sem, after.log).value
            && !ScanFile(sem, j.file[..cut]).stop.Damaged?
            && after.log <= Frames(j) && j.log[..j.synced] <= after.log
            && j.synced <= after.synced
  {
    hide LogBytes, Replay, LogFile, DatabaseHeaderOk, ScanFile, WholeFrames;
    CrashImage(sem, durability, j, cut);
    CutLogRecovers(sem, Frames(j), cut);
    SyncedFramesSurvive(sem, durability, j, cut);
    var k := WholeFrames(Frames(j), cut);
    var frames := Frames(j)[..k];
    var after := Reopen(sem, j, cut, io);
    EncodeLogLength(sem.format, frames);
    CutLogPrefix(sem.format, Frames(j), cut);
    assert after.file == j.file[..cut][..EndOffset(frames)] == LogFile(sem.format, frames);
    assert frames[..|frames|] == frames;
  }

  lemma CutLogPrefix(format: Format, log: seq<Frame>, cut: nat)
    requires AllAdmissible(format, log)
    requires DATABASE_HEADER_BYTES <= cut <= EndOffset(log)
    ensures |LogFile(format, log)| == EndOffset(log)
    ensures var whole := log[..WholeFrames(log, cut)];
            && EndOffset(whole) <= cut
            && LogFile(format, log)[..cut][..EndOffset(whole)] == LogFile(format, whole)
  {
    hide LogFile, WholeFrames, EncodeFrame, LogBytes;
    CutLogShape(format, log, cut);
    EncodeLogLength(format, log[..WholeFrames(log, cut)]);
  }

  // ---- Runs ----

  datatype Action = Write(f: Frame, io: Io) | Flush(io: Io) | Crash(cut: nat, io: Io)

  // Writers offer frames the reader accepts, and a crash keeps what was synced.
  ghost predicate Enabled<S>(sem: Semantics<S>, j: Journal, a: Action)
    requires Sound(sem, Frames(j)) && Replay(sem, j.log).Some?
  {
    match a
    case Write(f, _) => Admissible(sem.format, f) && sem.apply(Replay(sem, j.log).value, f, EndOffset(j.log)).Accept?
    case Flush(_) => true
    case Crash(cut, _) => j.synced <= |j.log| && EndOffset(j.log[..j.synced]) <= cut <= |j.file|
  }

  ghost function Step<S>(sem: Semantics<S>, durability: Durability, j: Journal, a: Action): Journal {
    match a
    case Write(f, io) =>
      if j.poisoned || !FrameFits(f) then j else WriteFrame(sem.format, durability, j, f, io).0
    case Flush(io) => if j.poisoned then j else FlushJournal(j, io)
    case Crash(cut, io) =>
      if cut <= |j.file| && DatabaseHeaderOk(sem.format, j.file[..cut]) then Reopen(sem, j, cut, io) else j
  }

  lemma InvReplays<S>(sem: Semantics<S>, durability: Durability, j: Journal)
    requires Inv(sem, durability, j)
    ensures Sound(sem, j.log) && Replay(sem, j.log).Some?
  {
    SoundPrefix(sem, Frames(j), |j.log|);
    assert Frames(j)[..|j.log|] == j.log;
  }

  lemma StepKeeps<S>(sem: Semantics<S>, durability: Durability, j: Journal, a: Action)
    requires durability != EveryBytes(0)
    requires Inv(sem, durability, j)
    requires Replay(sem, j.log).Some? && Enabled(sem, j, a)
    ensures var after := Step(sem, durability, j, a);
            && Inv(sem, durability, after)
            && j.synced <= after.synced
            && j.log[..j.synced] <= after.log[..after.synced]
  {
    hide Inv, Replay, LogBytes, WriteFrame, Reopen, DatabaseHeaderOk;
    assert j.synced <= |j.log| && Sound(sem, Frames(j)) by { InvParts(sem, durability, j); }
    match a
    case Write(f, io) =>
      if !j.poisoned {
        WriteFrameKeeps(sem, durability, j, f, io);
      }
    case Flush(io) =>
      if !j.poisoned {
        FlushKeeps(sem, durability, j, io);
      }
    case Crash(cut, io) =>
      ReopenKeeps(sem, durability, j, cut, io);
      InvParts(sem, durability, Reopen(sem, j, cut, io));
  }

  lemma InvParts<S>(sem: Semantics<S>, durability: Durability, j: Journal)
    requires Inv(sem, durability, j)
    ensures j.synced <= |j.log| && Sound(sem, Frames(j))
  {
  }

  // A run lists the journals it passes through; each step is enabled where it is taken.
  ghost predicate IsRun<S>(sem: Semantics<S>, durability: Durability, states: seq<Journal>, actions: seq<Action>) {
    && |states| == |actions| + 1
    && states[0] == Journal(DatabaseHeader(sem.format), 0, false, [], None, 0)
    && forall i :: 0 <= i < |actions| ==>
         && Sound(sem, Frames(states[i])) && Replay(sem, states[i].log).Some?
         && Enabled(sem, states[i], actions[i])
         && states[i + 1] == Step(sem, durability, states[i], actions[i])
  }

  // The invariant holds all along every run, and what a sync covered is never lost.
  lemma {:induction false} RunKeepsInv<S>(sem: Semantics<S>, durability: Durability, states: seq<Journal>,
                                          actions: seq<Action>, i: nat, k: nat)
    requires durability != EveryBytes(0)
    requires IsRun(sem, durability, states, actions)
    requires i <= k <= |actions|
    ensures Inv(sem, durability, states[i]) && Inv(sem, durability, states[k])
    ensures states[i].synced <= states[k].synced
    ensures states[i].log[..states[i].synced] <= states[k].log[..states[k].synced]
    decreases k
  {
    hide Inv, Step, Enabled, Replay;
    if k == 0 {
      FreshJournal(sem, durability);
      InvParts(sem, durability, states[0]);
    } else {
      var last := states[k - 1];
      RunKeepsInv(sem, durability, states, actions, if i < k then i else k - 1, k - 1);
      StepKeeps(sem, durability, last, actions[k - 1]);
      assert states[k] == Step(sem, durability, last, actions[k - 1]);
      InvParts(sem, durability, states[k]);
    }
  }

  /**
  Crash recovery over every run. Whatever writes, syncs, failures and crashes came
  before, the file cut at any byte past its last sync reads back without damage as
  the state after a list of whole frames. That list extends every log that any
  earlier point of the run had synced.
  */
  lemma EveryRunRecovers<S>(sem: Semantics<S>, durability: Durability, states: seq<Journal>,
                            actions: seq<Action>, i: nat, k: nat, cut: nat)
    requires durability != EveryBytes(0)
    requires IsRun(sem, durability, states, actions)
    requires i <= k <= |actions|
    requires states[k].synced <= |states[k].log|
    requires EndOffset(states[k].log[..states[k].synced]) <= cut <= |states[k].file|
    ensures DatabaseHeaderOk(sem.format, states[k].file[..cut])
    ensures states[i].synced <= |states[i].log|
    ensures var frames := Frames(states[k])[..WholeFrames(Frames(states[k]), cut)];
            var found := ScanFile(sem, states[k].file[..cut]);
            && Sound(sem, frames)
            && found.state == Replay(sem, frames).value
            && found.offset == EndOffset(frames)
            && !found.stop.Damaged?
            && states[i].log[..states[i].synced] <= frames
  {
    hide LogBytes, Replay, LogFile, DatabaseHeaderOk, ScanFile, WholeFrames;
    RunKeepsInv(sem, durability, states, actions, i, k);
    var j := states[k];
    CrashImage(sem, durability, j, cut);
    CutLogRecovers(sem, Frames(j), cut);
    SyncedFramesSurvive(sem, durability, j, cut);
  }
}

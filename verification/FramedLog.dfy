/**
Logs of checksummed frames, for any meaning of a frame.

`Replay` is the meaning of a list of frames and `Scan` the reader of raw bytes.
The results are about bytes: a log cut at any byte is read back as the state
after its whole frames (`CutLogRecovers`), whatever a reader accepts is a list
of frames (`ScanReadsALog`), and the accepted prefix stands on its own
(`ScannedPrefixIsClean`).
*/
module FramedLog {
  import opened ByteCodec
  import opened LogFrame

  datatype Outcome<+S> = Accept(value: S) | Reject(fault: Fault)

  // `apply(state, frame, offset)` is the effect of a frame found at a byte offset.
  datatype Semantics<!S> = Semantics(format: Format, initial: S, apply: (S, Frame, nat) -> Outcome<S>)

  ghost predicate AllAdmissible(format: Format, log: seq<Frame>) {
    forall f <- log :: Admissible(format, f)
  }

  ghost function EncodeLog(format: Format, log: seq<Frame>): Bytes
    requires AllAdmissible(format, log)
  {
    if log == [] then []
    else
      assert log[|log| - 1] in log;
      EncodeLog(format, log[..|log| - 1]) + EncodeFrame(format, log[|log| - 1])
  }

  ghost function LogFile(format: Format, log: seq<Frame>): Bytes
    requires AllAdmissible(format, log)
  {
    DatabaseHeader(format) + EncodeLog(format, log)
  }

  function LogBytes(log: seq<Frame>): nat {
    if log == [] then 0 else LogBytes(log[..|log| - 1]) + FrameBytes(log[|log| - 1])
  }

  // The offset at which the frame after `log` starts.
  function EndOffset(log: seq<Frame>): nat {
    DATABASE_HEADER_BYTES + LogBytes(log)
  }

  // The state after a list of frames, or None if some frame is rejected.
  ghost function Replay<S>(sem: Semantics<S>, log: seq<Frame>): Option<S> {
    if log == [] then Some(sem.initial)
    else
      var front := log[..|log| - 1];
      match Replay(sem, front)
      case None => None
      case Some(st) =>
        match sem.apply(st, log[|log| - 1], EndOffset(front))
        case Reject(_) => None
        case Accept(next) => Some(next)
  }

  // A log every frame of which is well formed and accepted in its place.
  ghost predicate Sound<S>(sem: Semantics<S>, log: seq<Frame>) {
    AllAdmissible(sem.format, log) && Replay(sem, log).Some?
  }

  // ---- The scan ----

  datatype ScanOutcome<+S> = ScanOutcome(state: S, offset: nat, stop: Stop)

  // Reads frames from `rest`, which starts at byte `offset` of the file.
  function Scan<S>(sem: Semantics<S>, rest: Bytes, offset: nat, st: S): (r: ScanOutcome<S>)
    ensures offset <= r.offset <= offset + |rest|
    ensures r.stop == CleanEof ==> r.offset == offset + |rest|
    decreases |rest|
  {
    if rest == [] then ScanOutcome(st, offset, CleanEof)
    else match ParseFrame(sem.format, rest)
      case Stopped(reason) => ScanOutcome(st, offset, reason)
      case Whole(f) =>
        match sem.apply(st, f, offset)
        case Reject(fault) => ScanOutcome(st, offset, Damaged(fault))
        case Accept(next) => Scan(sem, rest[FrameBytes(f)..], offset + FrameBytes(f), next)
  }

  function ScanFile<S>(sem: Semantics<S>, file: Bytes): (r: ScanOutcome<S>)
    requires DatabaseHeaderOk(sem.format, file)
    ensures DATABASE_HEADER_BYTES <= r.offset <= |file|
    ensures r.stop == CleanEof ==> r.offset == |file|
  {
    Scan(sem, file[DATABASE_HEADER_BYTES..], DATABASE_HEADER_BYTES, sem.initial)
  }

  // ---- Shape of logs ----

  lemma {:induction false} EncodeLogLength(format: Format, log: seq<Frame>)
    requires AllAdmissible(format, log)
    ensures |EncodeLog(format, log)| == LogBytes(log)
    ensures |LogFile(format, log)| == EndOffset(log)
  {
    if log != [] {
      EncodeLogLength(format, log[..|log| - 1]);
    }
  }

  lemma LogSnoc<S>(sem: Semantics<S>, log: seq<Frame>, f: Frame)
    requires AllAdmissible(sem.format, log) && Admissible(sem.format, f)
    ensures AllAdmissible(sem.format, log + [f])
    ensures LogFile(sem.format, log + [f]) == LogFile(sem.format, log) + EncodeFrame(sem.format, f)
    ensures EndOffset(log + [f]) == EndOffset(log) + FrameBytes(f)
    ensures Replay(sem, log + [f]) ==
            match Replay(sem, log)
            case None => None
            case Some(st) =>
              match sem.apply(st, f, EndOffset(log))
              case Reject(_) => None
              case Accept(next) => Some(next)
  {
    hide EncodeFrame, DatabaseHeader, FrameBytes;
    assert (log + [f])[..|log|] == log;
    assert DatabaseHeader(sem.format) + (EncodeLog(sem.format, log) + EncodeFrame(sem.format, f))
        == LogFile(sem.format, log) + EncodeFrame(sem.format, f);
  }

  lemma {:induction false} SoundPrefix<S>(sem: Semantics<S>, log: seq<Frame>, k: nat)
    requires Sound(sem, log) && k <= |log|
    ensures Sound(sem, log[..k])
    ensures EndOffset(log[..k]) <= EndOffset(log)
    ensures k < |log| ==> EndOffset(log[..k]) + FrameBytes(log[k]) <= EndOffset(log)
    decreases |log|
  {
    if k < |log| {
      var front := log[..|log| - 1];
      SoundPrefix(sem, front, k);
      assert front[..k] == log[..k];
    } else {
      assert log[..k] == log;
    }
  }

  // ---- Reading a log back ----

  lemma ScanOneFrame<S>(sem: Semantics<S>, f: Frame, after: Bytes, offset: nat, st: S)
    requires Admissible(sem.format, f)
    requires sem.apply(st, f, offset).Accept?
    ensures Scan(sem, EncodeFrame(sem.format, f) + after, offset, st)
         == Scan(sem, after, offset + FrameBytes(f), sem.apply(st, f, offset).value)
  {
    hide ParseFrame, EncodeFrame;
    WholeFrameParses(sem.format, f, after);
    assert |EncodeFrame(sem.format, f) + after| > 0;
  }

  // The reader steps over a sound run of frames and lands in its state.
  lemma {:induction false} ScanStepsOverLog<S>(sem: Semantics<S>, log: seq<Frame>, after: Bytes)
    requires Sound(sem, log)
    ensures Scan(sem, EncodeLog(sem.format, log) + after, DATABASE_HEADER_BYTES, sem.initial)
         == Scan(sem, after, EndOffset(log), Replay(sem, log).value)
  {
    hide ParseFrame, EncodeFrame, Scan;
    if log == [] {
      assert EncodeLog(sem.format, log) + after == after;
    } else {
      var front, last := log[..|log| - 1], log[|log| - 1];
      assert last in log;
      var rest := EncodeFrame(sem.format, last) + after;
      ScanStepsOverLog(sem, front, rest);
      assert EncodeLog(sem.format, log) + after == EncodeLog(sem.format, front) + rest;
      ScanOneFrame(sem, last, after, EndOffset(front), Replay(sem, front).value);
    }
  }

  // The number of frames of `log` that lie wholly before byte `cut`.
  function WholeFrames(log: seq<Frame>, cut: nat): (k: nat)
    ensures k <= |log|
  {
    if log == [] || EndOffset(log) <= cut then |log| else WholeFrames(log[..|log| - 1], cut)
  }

  lemma {:induction false} WholeFramesIsGreatest(log: seq<Frame>, cut: nat, k: nat)
    requires cut >= DATABASE_HEADER_BYTES && k <= |log|
    ensures k <= WholeFrames(log, cut) <==> EndOffset(log[..k]) <= cut
    decreases |log|
  {
    if log == [] || k == |log| {
      assert log[..k] == log;
    } else {
      var front := log[..|log| - 1];
      assert front[..k] == log[..k];
      WholeFramesIsGreatest(front, cut, k);
      if EndOffset(log) <= cut {
        PrefixEndOffset(log, k);
      }
    }
  }

  lemma {:induction false} PrefixEndOffset(log: seq<Frame>, k: nat)
    requires k <= |log|
    ensures EndOffset(log[..k]) <= EndOffset(log)
    decreases |log|
  {
    if k < |log| {
      assert log[..|log| - 1][..k] == log[..k];
      PrefixEndOffset(log[..|log| - 1], k);
    } else {
      assert log[..k] == log;
    }
  }

  // What is left of a log cut at byte `cut`: whole frames, then part of the next one.
  lemma {:induction false} CutLogShape(format: Format, log: seq<Frame>, cut: nat)
    requires AllAdmissible(format, log)
    requires DATABASE_HEADER_BYTES <= cut <= EndOffset(log)
    ensures |LogFile(format, log)| == EndOffset(log)
    ensures var k := WholeFrames(log, cut);
            var n := cut - EndOffset(log[..k]);
            && n >= 0
            && (k == |log| ==> n == 0)
            && (k < |log| ==> n < FrameBytes(log[k]) && Admissible(format, log[k]))
            && LogFile(format, log)[..cut]
            == LogFile(format, log[..k]) + (if k < |log| then EncodeFrame(format, log[k])[..n] else [])
  {
    hide EncodeFrame, DatabaseHeader;
    EncodeLogLength(format, log);
    var file := LogFile(format, log);
    if log == [] || EndOffset(log) <= cut {
      assert log[..|log|] == log;
      assert file[..cut] == file;
    } else {
      var front, last := log[..|log| - 1], log[|log| - 1];
      assert last in log;
      EncodeLogLength(format, front);
      assert file == LogFile(format, front) + EncodeFrame(format, last);
      if EndOffset(front) <= cut {
        assert front[..|front|] == front == log[..|front|];
        assert WholeFrames(front, cut) == |front|;
        var n := cut - EndOffset(front);
        assert file[..cut] == LogFile(format, front) + EncodeFrame(format, last)[..n];
      } else {
        CutLogShape(format, front, cut);
        var k := WholeFrames(front, cut);
        assert front[..k] == log[..k];
        assert file[..cut] == LogFile(format, front)[..cut];
      }
    }
  }

  /**
  Crash recovery: a sound log cut at any byte past its header is read back as
  exactly the state after its whole frames, and the remainder as a torn tail.
  */
  lemma CutLogRecovers<S>(sem: Semantics<S>, log: seq<Frame>, cut: nat)
    requires Sound(sem, log)
    requires DATABASE_HEADER_BYTES <= cut <= EndOffset(log)
    ensures |LogFile(sem.format, log)| == EndOffset(log)
    ensures var file := LogFile(sem.format, log)[..cut];
            var k := WholeFrames(log, cut);
            var n := cut - EndOffset(log[..k]);
            && DatabaseHeaderOk(sem.format, file)
            && Sound(sem, log[..k])
            && ScanFile(sem, file) == ScanOutcome(
                 Replay(sem, log[..k]).value,
                 EndOffset(log[..k]),
                 if n == 0 then CleanEof
                 else if n < FRAME_HEADER_BYTES then IncompleteFrameHeader
                 else IncompleteFramePayload)
  {
    hide EncodeFrame, DatabaseHeader, ParseFrame, WholeFrames;
    CutLogShape(sem.format, log, cut);
    var k := WholeFrames(log, cut);
    var n := cut - EndOffset(log[..k]);
    SoundPrefix(sem, log, k);
    assert k < |log| ==> log[k] in log;
    var torn := if k < |log| then EncodeFrame(sem.format, log[k])[..n] else [];
    var rest := EncodeLog(sem.format, log[..k]) + torn;
    var file := LogFile(sem.format, log)[..cut];
    assert file == DatabaseHeader(sem.format) + rest;
    WrittenHeaderOk(sem.format, rest);
    ScanStepsOverLog(sem, log[..k], torn);
    if n > 0 {
      CutFrameStops(sem.format, log[k], n);
    }
  }

  lemma NextFrameRead<S>(sem: Semantics<S>, file: Bytes, log: seq<Frame>, f: Frame)
    requires Sound(sem, log) && EndOffset(log) <= |file|
    requires file == LogFile(sem.format, log) + file[EndOffset(log)..]
    requires file[EndOffset(log)..] != [] && ParseFrame(sem.format, file[EndOffset(log)..]) == Whole(f)
    requires sem.apply(Replay(sem, log).value, f, EndOffset(log)).Accept?
    ensures var next := log + [f];
            && Sound(sem, next) && EndOffset(log) < EndOffset(next) <= |file|
            && Replay(sem, next) == Some(sem.apply(Replay(sem, log).value, f, EndOffset(log)).value)
            && EndOffset(next) == EndOffset(log) + FrameBytes(f)
            && file[EndOffset(next)..] == file[EndOffset(log)..][FrameBytes(f)..]
            && file == LogFile(sem.format, next) + file[EndOffset(next)..]
  {
    hide EncodeFrame, DatabaseHeader, ParseFrame, LogFile, LogBytes, Replay;
    var rest, next := file[EndOffset(log)..], log + [f];
    ParseIsCanonical(sem.format, rest);
    LogSnoc(sem, log, f);
    assert file[EndOffset(next)..] == rest[FrameBytes(f)..];
  }

  // Whatever the reader accepts is a list of frames with the state it reports.
  lemma {:induction false} ScanReadsALog<S>(sem: Semantics<S>, file: Bytes, log: seq<Frame>)
    returns (whole: seq<Frame>)
    requires DatabaseHeaderOk(sem.format, file)
    requires Sound(sem, log) && EndOffset(log) <= |file|
    requires file == LogFile(sem.format, log) + file[EndOffset(log)..]
    ensures Sound(sem, whole)
    ensures var r := Scan(sem, file[EndOffset(log)..], EndOffset(log), Replay(sem, log).value);
            && r.state == Replay(sem, whole).value
            && r.offset == EndOffset(whole) <= |file|
            && file == LogFile(sem.format, whole) + file[r.offset..]
    decreases |file| - EndOffset(log)
  {
    hide EncodeFrame, DatabaseHeader, ParseFrame, LogFile, Admissible, DatabaseHeaderOk;
    var rest := file[EndOffset(log)..];
    var st := Replay(sem, log).value;
    whole := log;
    if rest != [] && ParseFrame(sem.format, rest).Whole? {
      var f := ParseFrame(sem.format, rest).frame;
      if sem.apply(st, f, EndOffset(log)).Accept? {
        var next := log + [f];
        NextFrameRead(sem, file, log, f);
        whole := ScanReadsALog(sem, file, next);
      }
    }
  }

  // The accepted prefix on its own reads back cleanly, in the same state.
  lemma {:induction false} ScanPrefix<S>(sem: Semantics<S>, rest: Bytes, offset: nat, st: S)
    ensures var r := Scan(sem, rest, offset, st);
            Scan(sem, rest[..r.offset - offset], offset, st) == ScanOutcome(r.state, r.offset, CleanEof)
    decreases |rest|
  {
    hide ParseFrame;
    var r := Scan(sem, rest, offset, st);
    if rest != [] && ParseFrame(sem.format, rest).Whole? {
      var f := ParseFrame(sem.format, rest).frame;
      if sem.apply(st, f, offset).Accept? {
        var next := sem.apply(st, f, offset).value;
        var tail := rest[FrameBytes(f)..];
        ScanPrefix(sem, tail, offset + FrameBytes(f), next);
        var n := r.offset - offset;
        ParseIsLocal(sem.format, rest, n);
        assert rest[..n][FrameBytes(f)..] == tail[..n - FrameBytes(f)];
      }
    }
  }

  lemma ScannedPrefixIsClean<S>(sem: Semantics<S>, file: Bytes)
    requires DatabaseHeaderOk(sem.format, file)
    ensures var r := ScanFile(sem, file);
            && DatabaseHeaderOk(sem.format, file[..r.offset])
            && ScanFile(sem, file[..r.offset]) == ScanOutcome(r.state, r.offset, CleanEof)
  {
    hide Scan;
    var r := ScanFile(sem, file);
    var rest := file[DATABASE_HEADER_BYTES..];
    ScanPrefix(sem, rest, DATABASE_HEADER_BYTES, sem.initial);
    var cut := file[..r.offset];
    assert cut[DATABASE_HEADER_BYTES..] == rest[..r.offset - DATABASE_HEADER_BYTES];
    assert cut[..8] == file[..8] && cut[8..10] == file[8..10] && cut[10..12] == file[10..12];
    assert cut[..12] == file[..12] && cut[12..16] == file[12..16];
  }

  // Reading a written log either finds damage or accepts it whole.
  lemma {:induction false} WrittenLogScan<S>(sem: Semantics<S>, log: seq<Frame>, after: Bytes)
    requires AllAdmissible(sem.format, log)
    ensures var r := Scan(sem, EncodeLog(sem.format, log) + after, DATABASE_HEADER_BYTES, sem.initial);
            || r.stop.Damaged?
            || (Replay(sem, log).Some? && r == Scan(sem, after, EndOffset(log), Replay(sem, log).value))
  {
    hide ParseFrame, EncodeFrame, Scan;
    if log == [] {
      assert EncodeLog(sem.format, log) + after == after;
    } else {
      var front, last := log[..|log| - 1], log[|log| - 1];
      assert last in log;
      var rest := EncodeFrame(sem.format, last) + after;
      WrittenLogScan(sem, front, rest);
      assert EncodeLog(sem.format, log) + after == EncodeLog(sem.format, front) + rest;
      if Replay(sem, front).Some? {
        var st := Replay(sem, front).value;
        if sem.apply(st, last, EndOffset(front)).Accept? {
          ScanOneFrame(sem, last, after, EndOffset(front), st);
        } else {
          RejectedFrameStops(sem, last, after, EndOffset(front), st);
        }
      }
    }
  }

  lemma RejectedFrameStops<S>(sem: Semantics<S>, f: Frame, after: Bytes, offset: nat, st: S)
    requires Admissible(sem.format, f) && sem.apply(st, f, offset).Reject?
    ensures Scan(sem, EncodeFrame(sem.format, f) + after, offset, st).stop.Damaged?
  {
    hide ParseFrame, EncodeFrame;
    WholeFrameParses(sem.format, f, after);
    assert |EncodeFrame(sem.format, f) + after| > 0;
  }

  lemma WrittenFileScan<S>(sem: Semantics<S>, log: seq<Frame>)
    requires AllAdmissible(sem.format, log)
    ensures DatabaseHeaderOk(sem.format, LogFile(sem.format, log))
    ensures var r := ScanFile(sem, LogFile(sem.format, log));
            || r.stop.Damaged?
            || (Replay(sem, log).Some? && r == ScanOutcome(Replay(sem, log).value, EndOffset(log), CleanEof))
  {
    hide EncodeFrame, DatabaseHeader, DatabaseHeaderOk, Replay, LogBytes, EncodeLog;
    var body := EncodeLog(sem.format, log);
    WrittenHeaderOk(sem.format, body);
    WrittenLogScan(sem, log, []);
    assert body + [] == body;
  }

  // ---- A file has one reading ----

  // The meaning under which a log stands for itself.
  function Listing(format: Format): Semantics<seq<Frame>> {
    Semantics(format, [], (st: seq<Frame>, f: Frame, offset: nat) => Accept(st + [f]))
  }

  lemma {:induction false} ListingReplays(format: Format, log: seq<Frame>)
    ensures Replay(Listing(format), log) == Some(log)
  {
    if log != [] {
      ListingReplays(format, log[..|log| - 1]);
      assert log == log[..|log| - 1] + [log[|log| - 1]];
    }
  }

  lemma FileDeterminesLog(format: Format, a: seq<Frame>, b: seq<Frame>)
    requires AllAdmissible(format, a) && AllAdmissible(format, b)
    requires LogFile(format, a) == LogFile(format, b)
    ensures a == b
  {
    hide ParseFrame, EncodeFrame, DatabaseHeader, Replay, Admissible;
    var header := DatabaseHeader(format);
    assert EncodeLog(format, a) == LogFile(format, a)[|header|..] == LogFile(format, b)[|header|..] == EncodeLog(format, b);
    ListingReplays(format, a);
    ListingReplays(format, b);
    ScanStepsOverLog(Listing(format), a, []);
    ScanStepsOverLog(Listing(format), b, []);
    assert EncodeLog(format, a) + [] == EncodeLog(format, b) + [];
  }
}

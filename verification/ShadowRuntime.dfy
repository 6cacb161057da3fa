/**
The bounded single-writer runtime as a machine of atomic steps.

Producers take a send gate, check the state, reserve a queue slot, count the write and send
it; shutdown takes the same gate and sends its own command without a slot; one worker
receives, releases the slot, calls storage and reports. Steps of different threads interleave
in any order the gate and the channel allow, and the worker may die at any point.
`EveryRunKeepsInv` covers every interleaving.
*/
module ShadowRuntime {

  datatype Limits = Limits(queueCapacity: nat, maxQueuedPoints: nat)

  datatype State = Running | Closing | Poisoned | Closed

  datatype Command = Write(id: nat, points: nat) | Flush(id: nat) | Shutdown

  // How far the holder of the send gate has come.
  datatype Phase = Entered | Passed | Reserved | Counted
  datatype Gate = Free | Submitting(command: Command, phase: Phase) | ShuttingDown(marked: bool)

  // What a storage call does: succeeds, is refused without harm, or fails in a way that poisons the writer.
  datatype Outcome = Succeeds | Refused | Fatal

  // How far the worker has come with the command it took.
  datatype Worker =
    | Idle
    | Received(command: Command)
    | Serving(command: Command)
    | Called(command: Command, outcome: Outcome)
    | Acknowledged
    | Poisoning
    | Stopped

  datatype Usage = Usage(queued: nat, points: nat)

  // Calls that reach storage.
  datatype Call =
    | Commit(id: nat, outcome: Outcome)
    | Sync(id: nat, outcome: Outcome)
    | Maintenance(outcome: Outcome)
    | Close(succeeds: bool)

  // What the producer of a write is told.
  datatype Answer = Answer(id: nat, committed: bool)

  datatype Runtime = Runtime(
    state: State,
    accepted: nat,
    acknowledged: nat,
    failed: nat,
    usage: Usage,
    gate: Gate,
    channel: seq<Command>,
    worker: Worker,
    poison: bool,
    shutdownBegun: bool,
    // History: all commands sent, how many were taken, how many reached storage's side of the
    // poison check, failed writes and flushes among all failures, flushes that succeeded, the
    // storage calls and the answers to writes.
    sent: seq<Command>,
    taken: nat,
    served: nat,
    failedWrites: nat,
    failedFlushes: nat,
    flushed: nat,
    calls: seq<Call>,
    answers: seq<Answer>)

  const START := Runtime(Running, 0, 0, 0, Usage(0, 0), Free, [], Idle, false, false, [], 0, 0, 0, 0, 0, [], [])

  // ---- Queue slots ----

  function PointsOf(c: Command): nat {
    if c.Write? then c.points else 0
  }

  datatype Reservation = Granted(usage: Usage) | NoEntries | NoPoints

  function Reserve(limits: Limits, u: Usage, points: nat): Reservation {
    if u.queued + 1 > limits.queueCapacity then NoEntries
    else if u.points + points > limits.maxQueuedPoints then NoPoints
    else Granted(Usage(u.queued + 1, u.points + points))
  }

  // Saturating, as written; `ReleaseNeverSaturates` shows it never has to be.
  function Release(u: Usage, points: nat): Usage {
    Usage(if u.queued > 0 then u.queued - 1 else 0, if u.points >= points then u.points - points else 0)
  }

  // A granted slot that is given back leaves the usage as it was.
  lemma ReserveThenRelease(limits: Limits, u: Usage, points: nat)
    ensures var r := Reserve(limits, u, points);
            && (r.Granted? <==> u.queued < limits.queueCapacity && u.points + points <= limits.maxQueuedPoints)
            && (r.Granted? ==> Release(r.usage, points) == u)
  {
  }

  class QueueUsage {
    var queued: nat
    var points: nat

    constructor ()
      ensures queued == 0 && points == 0
    {
      queued, points := 0, 0;
    }

    function Value(): Usage
      reads this
    {
      Usage(queued, points)
    }

    method ReserveSlot(limits: Limits, more: nat) returns (r: Reservation)
      modifies this
      ensures r == Reserve(limits, old(Value()), more)
      ensures Value() == if r.Granted? then r.usage else old(Value())
    {
      if queued + 1 > limits.queueCapacity {
        return NoEntries;
      }
      if points + more > limits.maxQueuedPoints {
        return NoPoints;
      }
      queued := queued + 1;
      points := points + more;
      r := Granted(Usage(queued, points));
    }

    method ReleaseSlot(fewer: nat)
      modifies this
      ensures Value() == Release(old(Value()), fewer)
    {
      queued := if queued > 0 then queued - 1 else 0;
      points := if points >= fewer then points - fewer else 0;
    }
  }

  // ---- Steps: each is the state itself when the step cannot be taken ----

  datatype Step =
    | TakeGate(command: Command)
    | CheckState
    | TakeSlot
    | CountWrite
    | Send
    | TakeGateToShutDown
    | MarkClosing
    | SendShutdown
    | Receive
    | GiveSlotBack
    | CallStorage(outcome: Outcome)
    | RefuseFlush
    | Report
    | SkipMaintenance
    | Maintain(outcome: Outcome)
    | ReportPoison
    | CloseStorage(succeeds: bool)
    | WorkerDies

  function Next(limits: Limits, r: Runtime, step: Step): Runtime {
    match step
    case TakeGate(command) =>
      if r.gate.Free? && !command.Shutdown? then r.(gate := Submitting(command, Entered)) else r
    case CheckState => AfterCheck(r)
    case TakeSlot => AfterTakeSlot(limits, r)
    case CountWrite => AfterCount(r)
    case Send => AfterSend(limits, r)
    case TakeGateToShutDown =>
      if r.gate.Free? && !r.shutdownBegun then r.(gate := ShuttingDown(false), shutdownBegun := true) else r
    case MarkClosing => AfterMark(r)
    case SendShutdown => AfterSendShutdown(limits, r)
    case Receive => AfterReceive(r)
    case GiveSlotBack => AfterGiveBack(r)
    case CallStorage(outcome) => AfterCall(r, outcome)
    case RefuseFlush => AfterRefuse(r)
    case Report => AfterReport(r)
    case SkipMaintenance => if r.worker.Acknowledged? then r.(worker := Idle) else r
    case Maintain(outcome) => AfterMaintain(r, outcome)
    case ReportPoison => if r.worker.Poisoning? then r.(state := Poisoned, worker := Idle) else r
    case CloseStorage(succeeds) => AfterClose(r, succeeds)
    case WorkerDies => r.(worker := Stopped)
  }

  function AfterCheck(r: Runtime): Runtime {
    if r.gate.Submitting? && r.gate.phase.Entered? then
      r.(gate := if r.state.Running? then Submitting(r.gate.command, Passed) else Free)
    else r
  }

  function AfterTakeSlot(limits: Limits, r: Runtime): Runtime {
    if r.gate.Submitting? && r.gate.phase.Passed? then
      match Reserve(limits, r.usage, PointsOf(r.gate.command))
      case Granted(usage) => r.(usage := usage, gate := Submitting(r.gate.command, Reserved))
      case _ => r.(gate := Free)
    else r
  }

  function AfterCount(r: Runtime): Runtime {
    if r.gate.Submitting? && r.gate.phase.Reserved? then
      r.(accepted := if r.gate.command.Write? then r.accepted + 1 else r.accepted,
         gate := Submitting(r.gate.command, Counted))
    else r
  }

  // A full or disconnected channel gives the slot and the count back.
  function AfterSend(limits: Limits, r: Runtime): Runtime {
    if r.gate.Submitting? && r.gate.phase.Counted? then
      var c := r.gate.command;
      if r.worker.Stopped? || |r.channel| >= limits.queueCapacity then
        r.(gate := Free, usage := Release(r.usage, PointsOf(c)),
           accepted := if c.Write? && r.accepted > 0 then r.accepted - 1 else r.accepted)
      else r.(gate := Free, channel := r.channel + [c], sent := r.sent + [c])
    else r
  }

  function AfterMark(r: Runtime): Runtime {
    if r.gate.ShuttingDown? && !r.gate.marked then
      r.(gate := ShuttingDown(true), state := if r.state.Running? then Closing else r.state)
    else r
  }

  // Waits for room while holding the gate; a dead worker ends the wait.
  function AfterSendShutdown(limits: Limits, r: Runtime): Runtime {
    if r.gate.ShuttingDown? && r.gate.marked then
      if r.worker.Stopped? then r.(gate := Free)
      else if |r.channel| < limits.queueCapacity then
        r.(gate := Free, channel := r.channel + [Shutdown], sent := r.sent + [Shutdown])
      else r
    else r
  }

  function AfterReceive(r: Runtime): Runtime {
    if r.worker.Idle? && r.channel != [] then
      var c := r.channel[0];
      r.(channel := r.channel[1..], taken := r.taken + 1, worker := if c.Shutdown? then Serving(c) else Received(c))
    else r
  }

  function AfterGiveBack(r: Runtime): Runtime {
    if r.worker.Received? then
      r.(worker := Serving(r.worker.command), usage := Release(r.usage, PointsOf(r.worker.command)))
    else r
  }

  function CallFor(c: Command, outcome: Outcome): Call {
    match c
    case Write(id, _) => Commit(id, outcome)
    case Flush(id) => Sync(id, outcome)
    case Shutdown => Close(outcome.Succeeds?)
  }

  function CountFailure(r: Runtime, c: Command): Runtime {
    r.(worker := Idle, failed := r.failed + 1,
       failedWrites := if c.Write? then r.failedWrites + 1 else r.failedWrites,
       failedFlushes := if c.Flush? then r.failedFlushes + 1 else r.failedFlushes,
       answers := if c.Write? then r.answers + [Answer(c.id, false)] else r.answers)
  }

  // A poisoned writer answers without calling storage.
  function AfterCall(r: Runtime, outcome: Outcome): Runtime {
    if r.worker.Serving? && !r.worker.command.Shutdown? then
      if r.poison then CountFailure(r, r.worker.command)
      else r.(worker := Called(r.worker.command, outcome), poison := outcome.Fatal?, served := r.taken,
              calls := r.calls + [CallFor(r.worker.command, outcome)])
    else r
  }

  // A flush beyond what its source had accepted is answered without a storage call.
  function AfterRefuse(r: Runtime): Runtime {
    if r.worker.Serving? && r.worker.command.Flush? && !r.poison then
      CountFailure(r.(served := r.taken), r.worker.command)
    else r
  }

  function AfterReport(r: Runtime): Runtime {
    if r.worker.Called? then
      match r.worker.outcome
      case Fatal => CountFailure(r.(state := Poisoned), r.worker.command)
      case Refused => CountFailure(r, r.worker.command)
      case Succeeds =>
        if r.worker.command.Write? then
          r.(acknowledged := r.acknowledged + 1, worker := Acknowledged,
             answers := r.answers + [Answer(r.worker.command.id, true)])
        else r.(worker := Idle, flushed := r.flushed + 1)
    else r
  }

  // Follows an acknowledged write only; a panic here is the worker dying.
  function AfterMaintain(r: Runtime, outcome: Outcome): Runtime {
    if r.worker.Acknowledged? then
      r.(calls := r.calls + [Maintenance(outcome)], poison := outcome.Fatal?,
         worker := if outcome.Fatal? then Poisoning else Idle)
    else r
  }

  // A poisoned writer is closed without touching storage again.
  function AfterClose(r: Runtime, succeeds: bool): Runtime {
    if r.worker.Serving? && r.worker.command.Shutdown? then
      if r.poison then r.(state := Closed, worker := Stopped)
      else r.(state := Closed, worker := Stopped, served := r.taken, calls := r.calls + [Close(succeeds)],
              failed := if succeeds then r.failed else r.failed + 1)
    else r
  }

  // ---- The invariant ----

  function Slots(cs: seq<Command>): nat {
    if cs == [] then 0 else Slots(cs[..|cs| - 1]) + (if cs[|cs| - 1].Shutdown? then 0 else 1)
  }

  function QueuedPoints(cs: seq<Command>): nat {
    if cs == [] then 0 else QueuedPoints(cs[..|cs| - 1]) + PointsOf(cs[|cs| - 1])
  }

  predicate HoldsSlot(g: Gate) {
    g.Submitting? && (g.phase.Reserved? || g.phase.Counted?)
  }

  // Slots and points held outside the channel: by a producer about to send and a worker about to release.
  function HeldSlots(r: Runtime): nat {
    (if HoldsSlot(r.gate) then 1 else 0) + (if r.worker.Received? then 1 else 0)
  }

  function HeldPoints(r: Runtime): nat {
    (if HoldsSlot(r.gate) then PointsOf(r.gate.command) else 0)
    + (if r.worker.Received? then PointsOf(r.worker.command) else 0)
  }

  // Reserved entries and points stay within the limits and cover everything waiting; unless the
  // worker died they are exactly that.
  ghost predicate Accounted(limits: Limits, r: Runtime) {
    && Slots(r.channel) + HeldSlots(r) <= r.usage.queued <= limits.queueCapacity
    && QueuedPoints(r.channel) + HeldPoints(r) <= r.usage.points <= limits.maxQueuedPoints
    && (!r.worker.Stopped? || r.state.Closed? ==>
          r.usage == Usage(Slots(r.channel) + HeldSlots(r), QueuedPoints(r.channel) + HeldPoints(r)))
  }

  predicate PastCheck(g: Gate) {
    g.Submitting? && !g.phase.Entered?
  }

  ghost predicate ShutdownSent(r: Runtime) {
    exists i :: 0 <= i < |r.sent| && r.sent[i].Shutdown?
  }

  // Shutdown is the last thing ever sent, and no producer is past its state check once it is.
  ghost predicate ShutdownLast(r: Runtime) {
    && (ShutdownSent(r) ==> r.shutdownBegun && !r.state.Running? && !PastCheck(r.gate) && !r.gate.ShuttingDown?)
    && (forall i :: 0 <= i < |r.sent| && r.sent[i].Shutdown? ==> i == |r.sent| - 1)
    && (r.gate.ShuttingDown? ==> r.shutdownBegun && (r.gate.marked ==> !r.state.Running?))
    && (r.gate.Submitting? ==> !r.gate.command.Shutdown?)
  }

  function Commits(cs: seq<Command>): seq<nat> {
    if cs == [] then []
    else
      var last := cs[|cs| - 1];
      if last.Write? then Commits(cs[..|cs| - 1]) + [last.id] else Commits(cs[..|cs| - 1])
  }

  function CommitCalls(calls: seq<Call>): seq<nat> {
    if calls == [] then []
    else
      var last := calls[|calls| - 1];
      if last.Commit? then CommitCalls(calls[..|calls| - 1]) + [last.id] else CommitCalls(calls[..|calls| - 1])
  }

  // A command was taken and not yet handed to storage.
  predicate Holding(w: Worker) {
    w.Received? || w.Serving?
  }

  // The channel is what was sent and not taken; the worker's command is the last one taken.
  ghost predicate Channelled(r: Runtime) {
    && r.taken <= |r.sent|
    && r.channel == r.sent[r.taken..]
    && (Holding(r.worker) || r.worker.Called? ==> r.taken > 0 && r.worker.command == r.sent[r.taken - 1])
    && (r.worker.Received? || r.worker.Called? ==> !r.worker.command.Shutdown?)
    && (r.state.Closed? ==> r.worker.Stopped? && r.taken == |r.sent| && ShutdownSent(r))
  }

  // Storage saw exactly the writes served before any poison, in order.
  ghost predicate InOrder(r: Runtime) {
    && r.served <= r.taken <= |r.sent|
    && (Holding(r.worker) ==> r.served < r.taken)
    && (!r.poison && (!r.worker.Stopped? || r.state.Closed?) ==>
          r.served == if Holding(r.worker) then r.taken - 1 else r.taken)
    && (r.worker.Acknowledged? ==> !r.poison)
    && (r.worker.Called? ==> (r.poison <==> r.worker.outcome.Fatal?))
    && (r.poison && r.state.Running? ==> r.worker.Called? || r.worker.Poisoning? || r.worker.Stopped?)
    && CommitCalls(r.calls) == Commits(r.sent[..r.served])
  }

  // The worker still owes an answer for the write it took.
  predicate Owing(w: Worker) {
    (w.Received? || w.Serving? || w.Called?) && w.command.Write?
  }

  // Every write counted as accepted was sent or is about to be, and every one taken is answered once.
  ghost predicate Answered(r: Runtime) {
    && r.taken <= |r.sent|
    && r.accepted == |Commits(r.sent)| + (if r.gate.Submitting? && r.gate.phase.Counted? && r.gate.command.Write? then 1 else 0)
    && (!r.worker.Stopped? || r.state.Closed? ==>
          r.acknowledged + r.failedWrites + (if Owing(r.worker) then 1 else 0) == |Commits(r.sent[..r.taken])|)
    && r.failedWrites <= r.failed
  }

  ghost predicate Core(limits: Limits, r: Runtime) {
    Accounted(limits, r) && ShutdownLast(r) && Channelled(r) && InOrder(r) && Answered(r)
  }

  predicate FatalCall(c: Call) {
    !c.Close? && c.outcome.Fatal?
  }

  ghost predicate AnyFatal(calls: seq<Call>) {
    exists i :: 0 <= i < |calls| && FatalCall(calls[i])
  }

  function FailedCloses(calls: seq<Call>): nat {
    if calls == [] then 0
    else FailedCloses(calls[..|calls| - 1]) + (if calls[|calls| - 1] == Close(false) then 1 else 0)
  }

  function Flushes(cs: seq<Command>): nat {
    if cs == [] then 0 else Flushes(cs[..|cs| - 1]) + (if cs[|cs| - 1].Flush? then 1 else 0)
  }

  function Synced(calls: seq<Call>): nat {
    if calls == [] then 0
    else
      var last := calls[|calls| - 1];
      Synced(calls[..|calls| - 1]) + (if last.Sync? && last.outcome.Succeeds? then 1 else 0)
  }

  // The reported state has its cause: poison is a storage call that failed fatally, reported once
  // the worker is done with it, and closing is a begun shutdown.
  ghost predicate Explained(r: Runtime) {
    && (r.poison <==> AnyFatal(r.calls))
    && (r.state.Poisoned? ==> r.poison)
    && (r.poison && !r.worker.Called? && !r.worker.Poisoning? && !r.worker.Stopped? ==> r.state.Poisoned?)
    && (r.worker.Poisoning? ==> r.poison)
    && (r.state.Closing? || r.state.Closed? ==> r.shutdownBegun)
    && (!r.poison && !r.shutdownBegun ==> r.state.Running?)
  }

  // Every failure is counted once, every flush taken is answered once, and successful flushes are
  // those whose storage call succeeded.
  ghost predicate Tallied(r: Runtime) {
    && r.taken <= |r.sent|
    && r.failed == r.failedWrites + r.failedFlushes + FailedCloses(r.calls)
    && (!r.worker.Stopped? || r.state.Closed? ==>
          r.flushed + r.failedFlushes + (if Waits(r.worker) then 1 else 0) == Flushes(r.sent[..r.taken]))
    && (!r.worker.Stopped? ==> Synced(r.calls) == r.flushed + (if SyncDone(r.worker) then 1 else 0))
  }

  // A flush the worker has taken and not answered, and one whose storage call succeeded.
  predicate Waits(w: Worker) {
    (w.Received? || w.Serving? || w.Called?) && w.command.Flush?
  }

  predicate SyncDone(w: Worker) {
    w.Called? && w.command.Flush? && w.outcome.Succeeds?
  }

  ghost predicate Inv(limits: Limits, r: Runtime) {
    Core(limits, r) && Explained(r) && Tallied(r)
  }

  // ---- Lists of commands and calls ----

  lemma SlotsSnoc(cs: seq<Command>, c: Command)
    ensures Slots(cs + [c]) == Slots(cs) + (if c.Shutdown? then 0 else 1)
    ensures QueuedPoints(cs + [c]) == QueuedPoints(cs) + PointsOf(c)
  {
    assert (cs + [c])[..|cs|] == cs;
  }

  lemma {:induction false} SlotsHead(cs: seq<Command>)
    requires cs != []
    ensures Slots(cs) == Slots(cs[1..]) + (if cs[0].Shutdown? then 0 else 1)
    ensures QueuedPoints(cs) == QueuedPoints(cs[1..]) + PointsOf(cs[0])
  {
    if |cs| > 1 {
      var front := cs[..|cs| - 1];
      SlotsHead(front);
      assert |front| == |cs| - 1 && |cs[1..]| == |cs| - 1;
      assert front[1..] == cs[1..|cs| - 1] == cs[1..][..|cs| - 2];
    }
  }

  lemma {:induction false} SlotsCountAll(cs: seq<Command>)
    requires forall c <- cs :: !c.Shutdown?
    ensures Slots(cs) == |cs|
  {
    if cs != [] {
      assert cs[|cs| - 1] in cs;
      SlotsCountAll(cs[..|cs| - 1]);
    }
  }

  lemma CommitsSnoc(cs: seq<Command>, c: Command)
    ensures Commits(cs + [c]) == if c.Write? then Commits(cs) + [c.id] else Commits(cs)
  {
    assert (cs + [c])[..|cs|] == cs;
  }

  lemma CommitsTake(cs: seq<Command>, n: nat)
    requires n < |cs|
    ensures Commits(cs[..n + 1]) == if cs[n].Write? then Commits(cs[..n]) + [cs[n].id] else Commits(cs[..n])
  {
    assert cs[..n + 1][..n] == cs[..n];
  }

  lemma {:induction false} CommitsPrefix(cs: seq<Command>, n: nat)
    requires n <= |cs|
    ensures Commits(cs[..n]) <= Commits(cs)
    decreases |cs|
  {
    if n < |cs| {
      assert cs[..|cs| - 1][..n] == cs[..n];
      CommitsPrefix(cs[..|cs| - 1], n);
    } else {
      assert cs[..n] == cs;
    }
  }

  lemma CallsSnoc(calls: seq<Call>, c: Call)
    ensures CommitCalls(calls + [c]) == if c.Commit? then CommitCalls(calls) + [c.id] else CommitCalls(calls)
  {
    assert (calls + [c])[..|calls|] == calls;
  }

  // Sending a command extends the history and the channel alike.
  lemma SentSnoc(r: Runtime, c: Command)
    requires Channelled(r) && InOrder(r)
    ensures var more := r.sent + [c];
            && more[r.taken..] == r.channel + [c]
            && more[..r.taken] == r.sent[..r.taken] && more[..r.served] == r.sent[..r.served]
            && (forall i :: 0 <= i < |r.sent| ==> more[i] == r.sent[i])
            && |Commits(more)| == |Commits(r.sent)| + (if c.Write? then 1 else 0)
  {
    CommitsSnoc(r.sent, c);
  }

  // ---- Who is told what ----

  function AnsweredIds(answers: seq<Answer>): (ids: seq<nat>)
    ensures |ids| == |answers|
  {
    if answers == [] then [] else AnsweredIds(answers[..|answers| - 1]) + [answers[|answers| - 1].id]
  }

  function Committed(answers: seq<Answer>): nat {
    if answers == [] then 0
    else Committed(answers[..|answers| - 1]) + (if answers[|answers| - 1].committed then 1 else 0)
  }

  // How the commit calls went, in order.
  function CommitOutcomes(calls: seq<Call>): seq<Outcome> {
    if calls == [] then []
    else
      var last := calls[|calls| - 1];
      if last.Commit? then CommitOutcomes(calls[..|calls| - 1]) + [last.outcome] else CommitOutcomes(calls[..|calls| - 1])
  }

  predicate CalledWrite(w: Worker) {
    w.Called? && w.command.Write?
  }

  // The writes taken, in order, are the answered ones and the one the worker still owes.
  ghost predicate Told(r: Runtime) {
    && r.taken <= |r.sent|
    && AnsweredIds(r.answers) <= Commits(r.sent[..r.taken])
    && (!r.worker.Stopped? || r.state.Closed? ==>
          Commits(r.sent[..r.taken]) == AnsweredIds(r.answers) + (if Owing(r.worker) then [r.worker.command.id] else []))
    && r.acknowledged == Committed(r.answers) && r.acknowledged + r.failedWrites == |r.answers|
  }

  // The j-th answer says whether the j-th commit call succeeded; without a call it says no.
  ghost predicate Truthful(r: Runtime) {
    var outcomes := CommitOutcomes(r.calls);
    && (forall j :: 0 <= j < |r.answers| ==> (r.answers[j].committed <==> j < |outcomes| && outcomes[j].Succeeds?))
    && (!r.worker.Stopped? ==>
          if CalledWrite(r.worker) then |outcomes| == |r.answers| + 1 && outcomes[|r.answers|] == r.worker.outcome
          else |outcomes| <= |r.answers| && (!r.poison ==> |outcomes| == |r.answers|))
  }

  lemma AnswersSnoc(answers: seq<Answer>, a: Answer)
    ensures AnsweredIds(answers + [a]) == AnsweredIds(answers) + [a.id]
    ensures Committed(answers + [a]) == Committed(answers) + (if a.committed then 1 else 0)
  {
    assert (answers + [a])[..|answers|] == answers;
  }

  lemma OutcomesSnoc(calls: seq<Call>, c: Call)
    ensures CommitOutcomes(calls + [c]) == if c.Commit? then CommitOutcomes(calls) + [c.outcome] else CommitOutcomes(calls)
  {
    assert (calls + [c])[..|calls|] == calls;
  }

  // A step that neither takes a command nor answers one.
  lemma QuietKeepsTold(limits: Limits, r: Runtime, step: Step)
    requires Told(r) && (r.state.Closed? ==> r.worker.Stopped?)
    requires !step.Receive? && !step.CallStorage? && !step.RefuseFlush? && !step.Report?
    ensures Told(Next(limits, r, step))
  {
    hide Commits, AnsweredIds, Committed, Reserve, Release, PointsOf;
    var after := Next(limits, r, step);
    assert after.sent[..r.taken] == r.sent[..r.taken];
  }

  lemma ReceiveKeepsTold(r: Runtime)
    requires Channelled(r) && Told(r)
    ensures Told(AfterReceive(r))
  {
    hide Commits, AnsweredIds, Committed, ShutdownSent;
    if r.channel != [] {
      assert r.channel[0] == r.sent[r.taken];
      CommitsTake(r.sent, r.taken);
    }
  }

  lemma CallKeepsTold(r: Runtime, outcome: Outcome)
    requires Told(r)
    ensures Told(AfterCall(r, outcome)) && Told(AfterRefuse(r))
  {
    hide Commits, AnsweredIds, Committed, CallFor;
    if r.worker.Serving? && r.worker.command.Write? {
      AnswersSnoc(r.answers, Answer(r.worker.command.id, false));
    }
  }

  lemma ReportKeepsTold(r: Runtime)
    requires Told(r)
    ensures Told(AfterReport(r))
  {
    hide Commits, AnsweredIds, Committed;
    if CalledWrite(r.worker) {
      AnswersSnoc(r.answers, Answer(r.worker.command.id, false));
      AnswersSnoc(r.answers, Answer(r.worker.command.id, true));
    }
  }

  lemma StepKeepsTold(limits: Limits, r: Runtime, step: Step)
    requires Channelled(r) && Told(r)
    ensures Told(Next(limits, r, step))
  {
    hide Told, ShutdownSent, AfterCheck, AfterTakeSlot, AfterCount, AfterSend, AfterMark, AfterSendShutdown, AfterReceive,
         AfterGiveBack, AfterCall, AfterRefuse, AfterReport, AfterMaintain, AfterClose;
    match step
    case Receive => ReceiveKeepsTold(r);
    case CallStorage(outcome) => CallKeepsTold(r, outcome);
    case RefuseFlush => CallKeepsTold(r, Refused);
    case Report => ReportKeepsTold(r);
    case _ => QuietKeepsTold(limits, r, step);
  }

  lemma CallKeepsTruth(r: Runtime, outcome: Outcome)
    requires Truthful(r)
    ensures Truthful(AfterCall(r, outcome)) && Truthful(AfterRefuse(r))
  {
    hide CommitOutcomes;
    if r.worker.Serving? {
      OutcomesSnoc(r.calls, CallFor(r.worker.command, outcome));
    }
  }

  lemma ReportKeepsTruth(r: Runtime)
    requires Truthful(r)
    ensures Truthful(AfterReport(r))
  {
    hide CommitOutcomes;
  }

  lemma RestKeepsTruth(r: Runtime, outcome: Outcome, succeeds: bool)
    requires (r.worker.Acknowledged? ==> !r.poison) && Truthful(r)
    ensures Truthful(AfterMaintain(r, outcome)) && Truthful(AfterClose(r, succeeds))
  {
    hide CommitOutcomes;
    OutcomesSnoc(r.calls, Maintenance(outcome));
    OutcomesSnoc(r.calls, Close(succeeds));
  }

  lemma QuietKeepsTruth(limits: Limits, r: Runtime, step: Step)
    requires Truthful(r)
    requires !step.CallStorage? && !step.RefuseFlush? && !step.Report? && !step.Maintain? && !step.CloseStorage?
    ensures Truthful(Next(limits, r, step))
  {
    hide CommitOutcomes, Reserve, Release, PointsOf;
  }

  lemma StepKeepsTruth(limits: Limits, r: Runtime, step: Step)
    requires (r.worker.Acknowledged? ==> !r.poison) && Truthful(r)
    ensures Truthful(Next(limits, r, step))
  {
    hide Truthful, AfterCheck, AfterTakeSlot, AfterCount, AfterSend, AfterMark, AfterSendShutdown, AfterReceive,
         AfterGiveBack, AfterCall, AfterRefuse, AfterReport, AfterMaintain, AfterClose;
    match step
    case CallStorage(outcome) => CallKeepsTruth(r, outcome);
    case RefuseFlush => CallKeepsTruth(r, Refused);
    case Report => ReportKeepsTruth(r);
    case Maintain(outcome) => RestKeepsTruth(r, outcome, true);
    case CloseStorage(succeeds) => RestKeepsTruth(r, Refused, succeeds);
    case _ => QuietKeepsTruth(limits, r, step);
  }

  // ---- Every step keeps the invariant ----

  lemma EnterKeeps(limits: Limits, r: Runtime, c: Command)
    requires Core(limits, r)
    ensures Core(limits, Next(limits, r, TakeGate(c)))
  {
    hide Slots, QueuedPoints, Commits, CommitCalls;
    assert ShutdownSent(Next(limits, r, TakeGate(c))) == ShutdownSent(r);
  }

  lemma CheckKeeps(limits: Limits, r: Runtime)
    requires Core(limits, r)
    ensures Core(limits, AfterCheck(r))
  {
    hide Slots, QueuedPoints, Commits, CommitCalls;
    assert ShutdownSent(AfterCheck(r)) == ShutdownSent(r);
  }

  lemma CountKeeps(limits: Limits, r: Runtime)
    requires Core(limits, r)
    ensures Core(limits, AfterCount(r))
  {
    hide Slots, QueuedPoints, Commits, CommitCalls;
    assert ShutdownSent(AfterCount(r)) == ShutdownSent(r);
  }

  lemma TakeSlotKeeps(limits: Limits, r: Runtime)
    requires Core(limits, r)
    ensures Core(limits, AfterTakeSlot(limits, r))
  {
    hide Slots, QueuedPoints, Commits, CommitCalls, Reserve, PointsOf, Holding;
    var after := AfterTakeSlot(limits, r);
    assert ShutdownSent(after) == ShutdownSent(r);
    if r.gate.Submitting? {
      SlotTaken(limits, r.usage, PointsOf(r.gate.command));
    }
    assert Accounted(limits, after);
    hide Accounted;
    assert ShutdownLast(after) && Channelled(after);
  }

  lemma SlotTaken(limits: Limits, u: Usage, points: nat)
    ensures var r := Reserve(limits, u, points);
            r.Granted? ==>
              && r.usage == Usage(u.queued + 1, u.points + points)
              && r.usage.queued <= limits.queueCapacity && r.usage.points <= limits.maxQueuedPoints
  {
  }

  lemma SendKeeps(limits: Limits, r: Runtime)
    requires Core(limits, r)
    ensures Core(limits, AfterSend(limits, r))
  {
    hide Slots, QueuedPoints, Commits, CommitCalls;
    var after := AfterSend(limits, r);
    if after.sent == r.sent {
      assert ShutdownSent(after) == ShutdownSent(r);
    } else {
      SentKeeps(limits, r);
    }
  }

  lemma SentKeeps(limits: Limits, r: Runtime)
    requires Core(limits, r) && r.gate.Submitting? && r.gate.phase.Counted?
    ensures var c := r.gate.command;
            Core(limits, r.(gate := Free, channel := r.channel + [c], sent := r.sent + [c])) || r.worker.Stopped?
  {
    hide Slots, QueuedPoints, Commits, CommitCalls;
    var c := r.gate.command;
    var after := r.(gate := Free, channel := r.channel + [c], sent := r.sent + [c]);
    SlotsSnoc(r.channel, c);
    SentSnoc(r, c);
    assert !ShutdownSent(r);
    assert !ShutdownSent(after);
  }

  lemma ShutdownKeeps(limits: Limits, r: Runtime)
    requires Core(limits, r)
    ensures Core(limits, Next(limits, r, TakeGateToShutDown)) && Core(limits, AfterMark(r))
  {
    hide Slots, QueuedPoints, Commits, CommitCalls;
    assert ShutdownSent(Next(limits, r, TakeGateToShutDown)) == ShutdownSent(r);
    assert ShutdownSent(AfterMark(r)) == ShutdownSent(r);
  }

  lemma SendShutdownKeeps(limits: Limits, r: Runtime)
    requires Core(limits, r)
    ensures Core(limits, AfterSendShutdown(limits, r))
  {
    hide Slots, QueuedPoints, Commits, CommitCalls;
    var after := AfterSendShutdown(limits, r);
    SlotsSnoc(r.channel, Shutdown);
    SentSnoc(r, Shutdown);
    assert after.sent == r.sent ==> ShutdownSent(after) == ShutdownSent(r);
  }

  lemma ReceiveKeeps(limits: Limits, r: Runtime)
    requires Core(limits, r)
    ensures Core(limits, AfterReceive(r))
  {
    hide Slots, QueuedPoints, Commits, CommitCalls;
    assert ShutdownSent(AfterReceive(r)) == ShutdownSent(r);
    if r.channel != [] {
      SlotsHead(r.channel);
      assert r.channel[0] == r.sent[r.taken];
      assert r.channel[1..] == r.sent[r.taken + 1..];
      CommitsTake(r.sent, r.taken);
    }
  }

  lemma GiveBackKeeps(limits: Limits, r: Runtime)
    requires Core(limits, r)
    ensures Core(limits, AfterGiveBack(r))
  {
    hide Slots, QueuedPoints, Commits, CommitCalls;
    assert ShutdownSent(AfterGiveBack(r)) == ShutdownSent(r);
  }

  lemma CallKeeps(limits: Limits, r: Runtime, outcome: Outcome)
    requires Core(limits, r)
    ensures Core(limits, AfterCall(r, outcome))
  {
    hide Slots, QueuedPoints, Commits, CommitCalls;
    assert ShutdownSent(AfterCall(r, outcome)) == ShutdownSent(r);
    if r.worker.Serving? {
      CallsSnoc(r.calls, CallFor(r.worker.command, outcome));
      CommitsTake(r.sent, r.taken - 1);
    }
  }

  lemma RefuseKeeps(limits: Limits, r: Runtime)
    requires Core(limits, r)
    ensures Core(limits, AfterRefuse(r))
  {
    hide Slots, QueuedPoints, Commits, CommitCalls;
    assert ShutdownSent(AfterRefuse(r)) == ShutdownSent(r);
    if r.worker.Serving? {
      CommitsTake(r.sent, r.taken - 1);
    }
  }

  lemma ReportKeeps(limits: Limits, r: Runtime)
    requires Core(limits, r)
    ensures Core(limits, AfterReport(r))
  {
    hide Slots, QueuedPoints, Commits, CommitCalls;
    assert ShutdownSent(AfterReport(r)) == ShutdownSent(r);
  }

  lemma MaintainKeeps(limits: Limits, r: Runtime, outcome: Outcome)
    requires Core(limits, r)
    ensures Core(limits, AfterMaintain(r, outcome))
  {
    hide Slots, QueuedPoints, Commits, CommitCalls;
    CallsSnoc(r.calls, Maintenance(outcome));
    assert ShutdownSent(AfterMaintain(r, outcome)) == ShutdownSent(r);
  }

  lemma FinishKeeps(limits: Limits, r: Runtime)
    requires Core(limits, r)
    ensures Core(limits, Next(limits, r, SkipMaintenance)) && Core(limits, Next(limits, r, ReportPoison))
  {
    hide Slots, QueuedPoints, Commits, CommitCalls;
    assert ShutdownSent(Next(limits, r, SkipMaintenance)) == ShutdownSent(r);
    assert ShutdownSent(Next(limits, r, ReportPoison)) == ShutdownSent(r);
  }

  lemma CloseKeeps(limits: Limits, r: Runtime, succeeds: bool)
    requires Core(limits, r)
    ensures Core(limits, AfterClose(r, succeeds)) && Core(limits, Next(limits, r, WorkerDies))
  {
    hide Slots, QueuedPoints, Commits, CommitCalls;
    assert ShutdownSent(AfterClose(r, succeeds)) == ShutdownSent(r);
    assert ShutdownSent(Next(limits, r, WorkerDies)) == ShutdownSent(r);
    CallsSnoc(r.calls, Close(succeeds));
    if r.worker.Serving? {
      CommitsTake(r.sent, r.taken - 1);
    }
  }

  lemma StepKeepsCore(limits: Limits, r: Runtime, step: Step)
    requires Core(limits, r)
    ensures Core(limits, Next(limits, r, step))
  {
    hide Core, AfterCheck, AfterTakeSlot, AfterCount, AfterSend, AfterMark, AfterSendShutdown, AfterReceive,
         AfterGiveBack, AfterCall, AfterRefuse, AfterReport, AfterMaintain, AfterClose;
    match step
    case TakeGate(command) => EnterKeeps(limits, r, command);
    case CheckState => CheckKeeps(limits, r);
    case CountWrite => CountKeeps(limits, r);
    case TakeSlot => TakeSlotKeeps(limits, r);
    case Send => SendKeeps(limits, r);
    case TakeGateToShutDown => ShutdownKeeps(limits, r);
    case MarkClosing => ShutdownKeeps(limits, r);
    case SendShutdown => SendShutdownKeeps(limits, r);
    case Receive => ReceiveKeeps(limits, r);
    case GiveSlotBack => GiveBackKeeps(limits, r);
    case CallStorage(outcome) => CallKeeps(limits, r, outcome);
    case RefuseFlush => RefuseKeeps(limits, r);
    case Report => ReportKeeps(limits, r);
    case SkipMaintenance => FinishKeeps(limits, r);
    case Maintain(outcome) => MaintainKeeps(limits, r, outcome);
    case ReportPoison => FinishKeeps(limits, r);
    case CloseStorage(succeeds) => CloseKeeps(limits, r, succeeds);
    case WorkerDies => CloseKeeps(limits, r, true);
  }

  // ---- The state has its cause ----

  lemma CountsSnoc(calls: seq<Call>, c: Call)
    ensures FailedCloses(calls + [c]) == FailedCloses(calls) + (if c == Close(false) then 1 else 0)
    ensures Synced(calls + [c]) == Synced(calls) + (if c.Sync? && c.outcome.Succeeds? then 1 else 0)
    ensures AnyFatal(calls + [c]) <==> AnyFatal(calls) || FatalCall(c)
  {
    var more := calls + [c];
    assert more[..|calls|] == calls && more[|calls|] == c;
    if AnyFatal(calls) {
      var i :| 0 <= i < |calls| && FatalCall(calls[i]);
      assert more[i] == calls[i];
    }
  }

  predicate ProducerStep(step: Step) {
    || step.TakeGate? || step.CheckState? || step.TakeSlot? || step.CountWrite? || step.Send?
    || step.TakeGateToShutDown? || step.MarkClosing? || step.SendShutdown?
  }

  // What the steps of producers and shutdown leave alone.
  lemma ProducerSide(limits: Limits, r: Runtime, step: Step)
    requires ProducerStep(step) && (r.gate.ShuttingDown? ==> r.shutdownBegun)
    ensures var after := Next(limits, r, step);
            && after.worker == r.worker && after.poison == r.poison && after.calls == r.calls && after.taken == r.taken
            && after.failed == r.failed && after.failedWrites == r.failedWrites
            && after.failedFlushes == r.failedFlushes && after.flushed == r.flushed
            && r.sent <= after.sent && (r.shutdownBegun ==> after.shutdownBegun)
            && (after.state == r.state || (r.state.Running? && after.state.Closing? && after.shutdownBegun))
  {
    hide Reserve, Release, PointsOf;
  }

  lemma ProducerExplained(limits: Limits, r: Runtime, step: Step)
    requires ProducerStep(step) && ShutdownLast(r) && Explained(r)
    ensures Explained(Next(limits, r, step))
  {
    hide Next, AnyFatal, ShutdownSent;
    ProducerSide(limits, r, step);
  }

  lemma QuietExplained(limits: Limits, r: Runtime, step: Step)
    requires Channelled(r) && InOrder(r) && Explained(r) && !ProducerStep(step)
    requires !step.CallStorage? && !step.Maintain? && !step.CloseStorage?
    ensures Explained(Next(limits, r, step))
  {
    hide Release, PointsOf, Commits, CommitCalls, ShutdownSent, AnyFatal, AfterCheck, AfterTakeSlot, AfterCount,
         AfterSend, AfterMark, AfterSendShutdown, AfterCall, AfterMaintain, AfterClose;
  }

  lemma CallExplained(r: Runtime, outcome: Outcome)
    requires Explained(r)
    ensures Explained(AfterCall(r, outcome))
  {
    hide AnyFatal;
    if r.worker.Serving? {
      CountsSnoc(r.calls, CallFor(r.worker.command, outcome));
    }
  }

  lemma MaintainExplained(r: Runtime, outcome: Outcome)
    requires (r.worker.Acknowledged? ==> !r.poison) && Explained(r)
    ensures Explained(AfterMaintain(r, outcome))
  {
    hide AnyFatal;
    CountsSnoc(r.calls, Maintenance(outcome));
  }

  lemma CloseExplained(r: Runtime, succeeds: bool)
    requires Channelled(r) && ShutdownLast(r) && Explained(r)
    ensures Explained(AfterClose(r, succeeds))
  {
    hide AnyFatal, Accounted;
    CountsSnoc(r.calls, Close(succeeds));
    if r.worker.Serving? && r.worker.command.Shutdown? {
      assert r.sent[r.taken - 1].Shutdown?;
      assert ShutdownSent(r);
    }
  }

  lemma StepExplained(limits: Limits, r: Runtime, step: Step)
    requires Channelled(r) && InOrder(r) && ShutdownLast(r) && Explained(r) && (r.worker.Acknowledged? ==> !r.poison)
    ensures Explained(Next(limits, r, step))
  {
    hide Explained, Channelled, InOrder, ShutdownLast, AfterCheck, AfterTakeSlot, AfterCount, AfterSend, AfterMark,
         AfterSendShutdown, AfterReceive, AfterGiveBack, AfterCall, AfterRefuse, AfterReport, AfterMaintain, AfterClose;
    match step
    case CallStorage(outcome) => CallExplained(r, outcome);
    case Maintain(outcome) => MaintainExplained(r, outcome);
    case CloseStorage(succeeds) => CloseExplained(r, succeeds);
    case _ =>
      if ProducerStep(step) {
        ProducerExplained(limits, r, step);
      } else {
        QuietExplained(limits, r, step);
      }
  }

  lemma FlushesTake(cs: seq<Command>, n: nat)
    requires n < |cs|
    ensures Flushes(cs[..n + 1]) == Flushes(cs[..n]) + (if cs[n].Flush? then 1 else 0)
  {
    assert cs[..n + 1][..n] == cs[..n];
  }

  lemma ProducerTallied(limits: Limits, r: Runtime, step: Step)
    requires ProducerStep(step) && ShutdownLast(r) && Tallied(r)
    ensures Tallied(Next(limits, r, step))
  {
    hide Next, Flushes, FailedCloses, Synced, ShutdownSent;
    ProducerSide(limits, r, step);
    assert Next(limits, r, step).sent[..r.taken] == r.sent[..r.taken];
  }

  lemma QuietTallied(limits: Limits, r: Runtime, step: Step)
    requires Channelled(r) && Tallied(r) && !ProducerStep(step)
    requires !step.Receive? && !step.CallStorage? && !step.Maintain? && !step.CloseStorage?
    ensures Tallied(Next(limits, r, step))
  {
    hide Release, PointsOf, Flushes, FailedCloses, Synced, ShutdownSent, AfterCheck, AfterTakeSlot, AfterCount,
         AfterSend, AfterMark, AfterSendShutdown, AfterReceive, AfterCall, AfterMaintain, AfterClose;
  }

  lemma ReceiveTallied(r: Runtime)
    requires Channelled(r) && Tallied(r)
    ensures Tallied(AfterReceive(r))
  {
    hide Flushes, FailedCloses, Synced, ShutdownSent;
    if r.channel != [] {
      assert r.channel[0] == r.sent[r.taken];
      FlushesTake(r.sent, r.taken);
    }
  }

  lemma CallTallied(r: Runtime, outcome: Outcome, succeeds: bool)
    requires Channelled(r) && Tallied(r)
    ensures Tallied(AfterCall(r, outcome)) && Tallied(AfterMaintain(r, outcome)) && Tallied(AfterClose(r, succeeds))
  {
    hide Flushes, FailedCloses, Synced, ShutdownSent;
    CountsSnoc(r.calls, Maintenance(outcome));
    CountsSnoc(r.calls, Close(succeeds));
    if r.worker.Serving? {
      CountsSnoc(r.calls, CallFor(r.worker.command, outcome));
    }
  }

  lemma StepTallied(limits: Limits, r: Runtime, step: Step)
    requires Channelled(r) && ShutdownLast(r) && Tallied(r)
    ensures Tallied(Next(limits, r, step))
  {
    hide Tallied, Channelled, ShutdownLast, AfterCheck, AfterTakeSlot, AfterCount, AfterSend, AfterMark,
         AfterSendShutdown, AfterReceive, AfterGiveBack, AfterCall, AfterRefuse, AfterReport, AfterMaintain, AfterClose;
    match step
    case Receive => ReceiveTallied(r);
    case CallStorage(outcome) => CallTallied(r, outcome, true);
    case Maintain(outcome) => CallTallied(r, outcome, true);
    case CloseStorage(succeeds) => CallTallied(r, Refused, succeeds);
    case _ =>
      if ProducerStep(step) {
        ProducerTallied(limits, r, step);
      } else {
        QuietTallied(limits, r, step);
      }
  }

  lemma CoreParts(limits: Limits, r: Runtime)
    requires Core(limits, r)
    ensures Channelled(r) && InOrder(r) && ShutdownLast(r) && (r.worker.Acknowledged? ==> !r.poison)
  {
    hide Accounted, ShutdownLast, Channelled, Answered, Commits, CommitCalls;
  }

  lemma StepKeepsInv(limits: Limits, r: Runtime, step: Step)
    requires Inv(limits, r)
    ensures Inv(limits, Next(limits, r, step))
  {
    hide Next, Accounted, ShutdownLast, Channelled, InOrder, Answered, Explained, Tallied;
    CoreParts(limits, r);
    StepKeepsCore(limits, r, step);
    StepExplained(limits, r, step);
    StepTallied(limits, r, step);
  }

  function Run(limits: Limits, steps: seq<Step>): Runtime {
    if steps == [] then START else Next(limits, Run(limits, steps[..|steps| - 1]), steps[|steps| - 1])
  }

  lemma StartsWell(limits: Limits, r: Runtime)
    requires r.state.Running? && r.gate.Free? && r.worker.Idle? && !r.poison && !r.shutdownBegun
    requires r.accepted == r.acknowledged == r.failed == r.taken == r.served == 0 && r.usage == Usage(0, 0)
    requires r.failedWrites == r.failedFlushes == r.flushed == 0
    requires r.channel == [] && r.sent == [] && r.calls == [] && r.answers == []
    ensures Inv(limits, r)
  {
    assert r.sent[..0] == [];
  }

  /**
  Every interleaving: reserved entries and points stay within the limits and cover what waits
  in the channel, nothing is ever sent after a shutdown command, storage has seen exactly the
  writes served before any poison in the order they were accepted, and every accepted write is
  answered at most once.
  */
  lemma {:induction false} EveryRunKeepsInv(limits: Limits, steps: seq<Step>)
    ensures Inv(limits, Run(limits, steps))
  {
    hide Next, Inv;
    if steps == [] {
      StartsWell(limits, START);
    } else {
      EveryRunKeepsInv(limits, steps[..|steps| - 1]);
      StepKeepsInv(limits, Run(limits, steps[..|steps| - 1]), steps[|steps| - 1]);
    }
  }

  lemma NothingTold(r: Runtime)
    requires r.sent == [] && r.taken == 0 && r.worker.Idle? && r.calls == [] && r.answers == []
    requires r.acknowledged == 0 && r.failedWrites == 0
    ensures Told(r) && Truthful(r)
  {
    assert r.sent[..r.taken] == [];
  }

  /**
  Over every run the answers go to the accepted writes in order, one each, and a write is told
  it was committed exactly when its own storage call succeeded.
  */
  lemma {:induction false} EveryAnswerTrue(limits: Limits, steps: seq<Step>)
    ensures Told(Run(limits, steps)) && Truthful(Run(limits, steps))
  {
    hide Next, Core, Explained, Tallied, Told, Truthful, Channelled;
    if steps == [] {
      NothingTold(START);
    } else {
      var front := steps[..|steps| - 1];
      EveryAnswerTrue(limits, front);
      EveryRunKeepsInv(limits, front);
      CoreParts(limits, Run(limits, front));
      StepKeepsTold(limits, Run(limits, front), steps[|steps| - 1]);
      StepKeepsTruth(limits, Run(limits, front), steps[|steps| - 1]);
    }
  }

  // ---- What follows for every run ----

  // A producer with a slot always finds room: the full-channel branch is never taken.
  lemma ChannelNeverFull(limits: Limits, steps: seq<Step>)
    ensures var r := Run(limits, steps); HoldsSlot(r.gate) ==> |r.channel| < limits.queueCapacity
  {
    hide Run, InOrder, Answered;
    var r := Run(limits, steps);
    EveryRunKeepsInv(limits, steps);
    if HoldsSlot(r.gate) {
      forall c <- r.channel ensures !c.Shutdown? {
        var i :| 0 <= i < |r.channel| && r.channel[i] == c;
        assert r.sent[r.taken + i] == c;
      }
      SlotsCountAll(r.channel);
    }
  }

  // Every release finds the slot and the points it gives back.
  lemma ReleaseNeverSaturates(limits: Limits, steps: seq<Step>)
    ensures var r := Run(limits, steps);
            && (r.worker.Received? ==> r.usage.queued >= 1 && r.usage.points >= PointsOf(r.worker.command))
            && (HoldsSlot(r.gate) ==> r.usage.queued >= 1 && r.usage.points >= PointsOf(r.gate.command))
  {
    hide Run, InOrder, ShutdownLast, Channelled, Answered;
    EveryRunKeepsInv(limits, steps);
  }

  function StateRank(s: State): nat {
    match s case Running => 0 case Closing => 1 case Poisoned => 2 case Closed => 3
  }

  lemma StepAdvances(limits: Limits, r: Runtime, step: Step)
    requires r.state.Closed? ==> r.worker.Stopped?
    ensures StateRank(r.state) <= StateRank(Next(limits, r, step).state)
    ensures r.poison ==> Next(limits, r, step).poison || r.worker.Acknowledged?
    ensures r.poison && !r.worker.Acknowledged? ==> Next(limits, r, step).calls == r.calls
  {
  }

  // The state only moves forward: running, closing, poisoned, closed. It never returns to running.
  lemma {:induction false} StateOnlyAdvances(limits: Limits, steps: seq<Step>, n: nat)
    requires n <= |steps|
    ensures StateRank(Run(limits, steps[..n]).state) <= StateRank(Run(limits, steps).state)
    decreases |steps|
  {
    hide Next, StateRank, Accounted, ShutdownLast, InOrder, Answered;
    if n < |steps| {
      var front := steps[..|steps| - 1];
      assert front[..n] == steps[..n];
      StateOnlyAdvances(limits, front, n);
      EveryRunKeepsInv(limits, front);
      StepAdvances(limits, Run(limits, front), steps[|steps| - 1]);
    } else {
      assert steps[..n] == steps;
    }
  }

  // After a poisoning failure no step of any run makes a storage call, closing included.
  lemma {:induction false} PoisonSilencesStorage(limits: Limits, steps: seq<Step>, n: nat)
    requires n <= |steps| && Run(limits, steps[..n]).poison
    ensures Run(limits, steps).poison && Run(limits, steps).calls == Run(limits, steps[..n]).calls
    decreases |steps|
  {
    hide Next, StateRank, Accounted, ShutdownLast, Answered;
    if n < |steps| {
      var front := steps[..|steps| - 1];
      assert front[..n] == steps[..n];
      PoisonSilencesStorage(limits, front, n);
      EveryRunKeepsInv(limits, front);
      StepAdvances(limits, Run(limits, front), steps[|steps| - 1]);
    } else {
      assert steps[..n] == steps;
    }
  }

  // Commits reach storage in acceptance order: they are a prefix of the accepted writes.
  lemma CommitsAreAcceptedPrefix(limits: Limits, steps: seq<Step>)
    ensures CommitCalls(Run(limits, steps).calls) <= Commits(Run(limits, steps).sent)
  {
    hide Run, Accounted, ShutdownLast, Answered;
    EveryRunKeepsInv(limits, steps);
    CommitsPrefix(Run(limits, steps).sent, Run(limits, steps).served);
  }

  // Once the worker has reported a poisoning failure, no producer passes the state check again.
  lemma PoisonShutsTheDoor(limits: Limits, steps: seq<Step>)
    ensures var r := Run(limits, steps);
            && (r.poison && (Holding(r.worker) || r.worker.Idle?) ==> !r.state.Running?)
            && (!r.state.Running? ==> !PastCheck(AfterCheck(r).gate) || PastCheck(r.gate))
  {
    hide Run, Accounted, Channelled, Answered, ShutdownLast;
    EveryRunKeepsInv(limits, steps);
  }

  // Nothing is sent behind a shutdown command.
  lemma NothingBehindShutdown(limits: Limits, steps: seq<Step>, i: nat)
    ensures var r := Run(limits, steps); i < |r.sent| && r.sent[i].Shutdown? ==> i == |r.sent| - 1
  {
    hide Run, Accounted, InOrder, Channelled, Answered;
    EveryRunKeepsInv(limits, steps);
  }

  /**
  A closed runtime has drained: nothing waits, the answers are one for every accepted write in
  order, and unless the writer was poisoned storage received every accepted write, in order. A write was
  told it is committed exactly when its storage call succeeded.
  */
  lemma ClosedHasDrained(limits: Limits, steps: seq<Step>)
    ensures var r := Run(limits, steps);
            r.state.Closed? ==>
              && r.channel == []
              && AnsweredIds(r.answers) == Commits(r.sent) && r.accepted == |r.answers|
              && CommitCalls(r.calls) <= Commits(r.sent)
              && (!r.poison ==> CommitCalls(r.calls) == Commits(r.sent))
              && (forall j :: 0 <= j < |r.answers| ==>
                    (r.answers[j].committed <==>
                     j < |CommitOutcomes(r.calls)| && CommitOutcomes(r.calls)[j].Succeeds?))
  {
    hide Run, Accounted;
    EveryRunKeepsInv(limits, steps);
    EveryAnswerTrue(limits, steps);
    CommitsAreAcceptedPrefix(limits, steps);
    var r := Run(limits, steps);
    if r.taken == |r.sent| {
      assert r.sent[..r.taken] == r.sent;
    }
  }

  // While the worker lives, accepted writes are the answered ones, the one being served and the waiting ones.
  lemma WritesConserved(limits: Limits, steps: seq<Step>)
    ensures var r := Run(limits, steps);
            r.gate.Free? && !r.worker.Stopped? ==>
              r.accepted == r.acknowledged + r.failedWrites + (if Owing(r.worker) then 1 else 0) + |Commits(r.channel)|
  {
    hide Run, Accounted, ShutdownLast, InOrder;
    EveryRunKeepsInv(limits, steps);
    var r := Run(limits, steps);
    CommitsSplit(r.sent[..r.taken], r.channel);
    assert r.sent[..r.taken] + r.sent[r.taken..] == r.sent;
  }

  lemma {:induction false} CommitsSplit(a: seq<Command>, b: seq<Command>)
    ensures Commits(a + b) == Commits(a) + Commits(b)
    decreases |b|
  {
    if b == [] {
      assert a + b == a;
    } else {
      assert (a + b)[..|a + b| - 1] == a + b[..|b| - 1];
      CommitsSplit(a, b[..|b| - 1]);
    }
  }

  /**
  Over every run the reported state has its cause. Poison means a storage call failed fatally;
  it is reported as soon as the worker has dealt with that call, and nothing else poisons; without
  poison and without a begun shutdown the runtime is running.
  */
  lemma StateHasItsCause(limits: Limits, steps: seq<Step>)
    ensures var r := Run(limits, steps);
            && (r.poison <==> exists i :: 0 <= i < |r.calls| && !r.calls[i].Close? && r.calls[i].outcome.Fatal?)
            && (r.state.Poisoned? ==> r.poison)
            && (r.poison && (r.worker.Idle? || Holding(r.worker)) ==> r.state.Poisoned?)
            && (r.state.Closing? || r.state.Closed? ==> r.shutdownBegun)
            && (!r.poison && !r.shutdownBegun ==> r.state.Running?)
  {
    hide Run, Core, Tallied;
    var r := Run(limits, steps);
    EveryRunKeepsInv(limits, steps);
    assert forall i :: 0 <= i < |r.calls| ==>
             (FatalCall(r.calls[i]) <==> !r.calls[i].Close? && r.calls[i].outcome.Fatal?);
  }

  // ---- Whole operations, when no other thread steps in between ----

  // A submission is queued exactly when the runtime is running, its entry and points fit and a worker
  // is there to receive it; otherwise it leaves no trace.
  lemma Submission(limits: Limits, r: Runtime, c: Command)
    requires r.gate.Free? && !c.Shutdown?
    ensures var after := Next(limits, Next(limits, Next(limits, Next(limits, Next(limits, r,
                           TakeGate(c)), CheckState), TakeSlot), CountWrite), Send);
            var points := if c.Write? then c.points else 0;
            if && r.state.Running? && !r.worker.Stopped? && |r.channel| < limits.queueCapacity
               && r.usage.queued + 1 <= limits.queueCapacity && r.usage.points + points <= limits.maxQueuedPoints
            then after == r.(channel := r.channel + [c], sent := r.sent + [c],
                             usage := Usage(r.usage.queued + 1, r.usage.points + points),
                             accepted := if c.Write? then r.accepted + 1 else r.accepted)
            else after == r
  {
  }

  // A write the worker takes: its slot is free again, storage is called once unless the writer is
  // poisoned, the producer is told how the call went, and only a fatal failure poisons.
  lemma ServedWrite(limits: Limits, r: Runtime, id: nat, points: nat, outcome: Outcome)
    requires r.worker.Idle? && r.channel != [] && r.channel[0] == Write(id, points)
    requires r.usage.queued > 0 && r.usage.points >= points
    ensures var after := Next(limits, Next(limits, Next(limits, Next(limits, r,
                           Receive), GiveSlotBack), CallStorage(outcome)), Report);
            && after.channel == r.channel[1..] && after.usage == Usage(r.usage.queued - 1, r.usage.points - points)
            && after.calls == (if r.poison then r.calls else r.calls + [Commit(id, outcome)])
            && var committed := !r.poison && outcome.Succeeds?;
               && after.answers == r.answers + [Answer(id, committed)]
               && after.acknowledged == (if committed then r.acknowledged + 1 else r.acknowledged)
               && after.failed == (if committed then r.failed else r.failed + 1)
               && (after.poison <==> r.poison || outcome.Fatal?)
               && after.state == (if !r.poison && outcome.Fatal? then Poisoned else r.state)
               && after.worker == (if committed then Acknowledged else Idle)
  {
  }

  // The same for a flush, which is not counted as acknowledged.
  lemma ServedFlush(limits: Limits, r: Runtime, id: nat, outcome: Outcome)
    requires r.worker.Idle? && r.channel != [] && r.channel[0] == Flush(id) && r.usage.queued > 0
    ensures var after := Next(limits, Next(limits, Next(limits, Next(limits, r,
                           Receive), GiveSlotBack), CallStorage(outcome)), Report);
            && after.channel == r.channel[1..] && after.usage == Usage(r.usage.queued - 1, r.usage.points)
            && after.calls == (if r.poison then r.calls else r.calls + [Sync(id, outcome)])
            && var synced := !r.poison && outcome.Succeeds?;
               && after.answers == r.answers && after.acknowledged == r.acknowledged && after.worker == Idle
               && after.flushed == (if synced then r.flushed + 1 else r.flushed)
               && after.failed == (if synced then r.failed else r.failed + 1)
               && (after.poison <==> r.poison || outcome.Fatal?)
               && after.state == (if !r.poison && outcome.Fatal? then Poisoned else r.state)
  {
  }

  // A shutdown the worker takes closes storage unless the writer is poisoned, and always ends closed.
  lemma ServedShutdown(limits: Limits, r: Runtime, succeeds: bool)
    requires r.worker.Idle? && r.channel != [] && r.channel[0] == Shutdown
    ensures var after := Next(limits, Next(limits, r, Receive), CloseStorage(succeeds));
            && after.state == Closed && after.worker == Stopped && after.channel == r.channel[1..]
            && after.calls == (if r.poison then r.calls else r.calls + [Close(succeeds)])
            && after.failed == (if r.poison || succeeds then r.failed else r.failed + 1)
            && after.usage == r.usage && after.answers == r.answers && after.acknowledged == r.acknowledged
  {
  }

  // Maintenance after an acknowledged write: a fatal failure is reported as poison, any other is ignored.
  lemma Maintained(limits: Limits, r: Runtime, outcome: Outcome)
    requires r.worker.Acknowledged? && !r.poison
    ensures var after := Next(limits, Next(limits, r, Maintain(outcome)), ReportPoison);
            after == r.(calls := r.calls + [Maintenance(outcome)], worker := Idle, poison := outcome.Fatal?,
                        state := if outcome.Fatal? then Poisoned else r.state)
  {
  }
}

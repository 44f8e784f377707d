/** Delivery of log events to the remote collector.

    Any number of callers enqueue into one bounded FIFO channel; one worker takes messages out and
    hands events to a transport that may succeed, fail or panic; flush and shutdown travel through
    the same channel. Every atomic operation of the source is one step here, so a run is any
    interleaving of the steps of any number of calls with those of the worker. */
module LogDelivery {
  import opened Wrappers
  import opened Counting

  type CallId = nat

  datatype Failure = Transport | Rejected | WorkerStopped

  datatype Delivery = BestEffort | Required

  datatype Message =
    | Event(call: CallId)
    | Flush(call: CallId)
    | Shutdown(call: CallId)

  /** Why an event was refused. */
  datatype Cause = Closed | Full | Disconnected

  /** Where one `enqueue` call stands: between two of its atomic operations, or finished. */
  datatype Enqueue =
    | Entered
    | TurnedAway                 // read `closed` as true; the loss is not counted yet
    | Admitted                   // read `closed` as false
    | Cleared                    // passed the required-mode check for an earlier failure
    | Holding                    // holds a clone of the sender
    | Counted                    // has added one to `accepted`
    | Refused(cause: Cause)      // the channel refused; `accepted` is not taken back yet
    | TakenBack(cause: Cause)    // `accepted` is taken back; the loss is not counted yet
    | Sent
    | Lost(cause: Cause)
    | StoppedEarly(failure: Failure)
    | SenderGone

  predicate IsSent(e: Enqueue) { e.Sent? }

  predicate IsLost(e: Enqueue) { e.Lost? }

  /** Counted in `accepted`, with the channel's answer still to come or still to be undone. */
  predicate InWindow(e: Enqueue) { e.Counted? || e.Refused? }

  predicate IsFinished(e: Enqueue) { e.Sent? || e.Lost? || e.StoppedEarly? || e.SenderGone? }

  predicate HoldsSender(e: Enqueue) { e.Holding? || e.Counted? || e.Refused? || e.TakenBack? }

  /** What a flush or shutdown call returned. `Ignored` is the `Ok` of a second shutdown. */
  datatype Answer =
    | Acknowledged(verdict: Option<Failure>)
    | Ignored
    | TimedOut
    | AlreadyShutDown
    | WorkerGone

  /** Where one `flush` or `shutdown` call stands. */
  datatype Control =
    | Asking(shutdown: bool)
    | Fetching(shutdown: bool)
    | Offering(shutdown: bool)             // holds a clone of the sender
    | Waiting(shutdown: bool)
    | Closing(answer: Answer)              // shutdown only: about to take the sender away
    | Returned(answer: Answer)

  datatype Worker =
    | Receiving
    | Transmitting
    | Transmitted(result: Option<Failure>)
    | CountingFailure(failure: Failure)
    | RecordingFailure(failure: Failure)
    | Answering(call: CallId, last: bool)
    | Acknowledging(call: CallId, last: bool, verdict: Option<Failure>)
    | Leaving                    // the loop ended or a panic unwinds; the exit guard has not run
    | Marked                     // `worker_exited` is set; the receiver is still open
    | Gone                       // the receiver is dropped with everything still queued

  /** How the transport ends one send. */
  datatype Outcome = Delivers | Fails(failure: Failure) | Panics

  /** The channel and the worker's side of it.

      `channel` is every message the channel ever accepted; the worker has taken the first `taken`.
      `results` is what the transport returned for each event it finished. Both only grow. */
  datatype Remote = Remote(
    capacity: nat,
    channel: seq<Message>,
    taken: nat,
    worker: Worker,
    results: seq<Option<Failure>>,
    handled: nat,
    failures: nat,
    firstFailure: Option<Failure>,
    workerExited: bool,
    acknowledgements: map<CallId, Option<Failure>>)

  /** The sink, its loss counters and every call made so far. */
  datatype State = State(
    delivery: Delivery,
    closed: bool,
    senderTaken: bool,
    accepted: int,
    dropped: nat,
    enqueues: map<CallId, Enqueue>,
    controls: map<CallId, Control>,
    remote: Remote)

  datatype Action =
    | BeginEnqueue(call: CallId)
    | StepEnqueue(call: CallId)
    | BeginControl(call: CallId, shutdown: bool)
    | StepControl(call: CallId)
    | GiveUp(call: CallId)
    | StepWorker(outcome: Outcome)
    | DropSink

  function Spawn(capacity: nat, delivery: Delivery): State {
    State(delivery, false, false, 0, 0, map[], map[],
          Remote(capacity, [], 0, Receiving, [], 0, 0, None, false, map[]))
  }

  // ---- Steps ----

  /** The refusal `try_send` gives, if it gives one. */
  function Refusal(r: Remote): Option<Cause> {
    if r.worker.Gone? then Some(Disconnected)
    else if |r.channel| - r.taken >= r.capacity then Some(Full)
    else None
  }

  function Append(r: Remote, m: Message): Remote {
    r.(channel := r.channel + [m])
  }

  function At(s: State, c: CallId, e: Enqueue): State {
    s.(enqueues := s.enqueues[c := e])
  }

  function ControlAt(s: State, c: CallId, k: Control): State {
    s.(controls := s.controls[c := k])
  }

  function StepOfEnqueue(s: State, c: CallId): State
    requires c in s.enqueues
  {
    match s.enqueues[c]
    case Entered => At(s, c, if s.closed then TurnedAway else Admitted)
    case TurnedAway => At(s.(dropped := s.dropped + 1), c, Lost(Closed))
    case Admitted =>
      At(s, c, if s.delivery.Required? && s.remote.firstFailure.Some?
               then StoppedEarly(s.remote.firstFailure.value) else Cleared)
    case Cleared => At(s, c, if s.senderTaken then SenderGone else Holding)
    case Holding => At(s.(accepted := s.accepted + 1), c, Counted)
    case Counted =>
      (match Refusal(s.remote)
       case None => At(s.(remote := Append(s.remote, Event(c))), c, Sent)
       case Some(cause) => At(s, c, Refused(cause)))
    case Refused(cause) => At(s.(accepted := s.accepted - 1), c, TakenBack(cause))
    case TakenBack(cause) => At(s.(dropped := s.dropped + 1), c, Lost(cause))
    case _ => s
  }

  /** A flush returns; a shutdown first takes the sender away. */
  function End(shutdown: bool, answer: Answer): Control {
    if shutdown then Closing(answer) else Returned(answer)
  }

  function StepOfControl(s: State, c: CallId): State
    requires c in s.controls
  {
    match s.controls[c]
    case Asking(shutdown) =>
      if shutdown then
        ControlAt(s.(closed := true), c, if s.closed then Returned(Ignored) else Fetching(true))
      else
        ControlAt(s, c, if s.closed then Returned(AlreadyShutDown) else Fetching(false))
    case Fetching(shutdown) =>
      ControlAt(s, c, if s.senderTaken then End(shutdown, AlreadyShutDown) else Offering(shutdown))
    case Offering(shutdown) =>
      (match Refusal(s.remote)
       case None =>
         ControlAt(s.(remote := Append(s.remote, if shutdown then Shutdown(c) else Flush(c))), c,
                   Waiting(shutdown))
       case Some(Full) => ControlAt(s, c, Fetching(shutdown))
       case Some(_) => ControlAt(s, c, End(shutdown, WorkerGone)))
    case Waiting(shutdown) =>
      if c in s.remote.acknowledgements then
        ControlAt(s, c, End(shutdown, Acknowledged(s.remote.acknowledgements[c])))
      else s
    case Closing(answer) => ControlAt(s.(senderTaken := true), c, Returned(answer))
    case Returned(_) => s
  }

  /** Every clone of the sender is gone, so an empty channel reads as disconnected. */
  ghost predicate SendersGone(s: State) {
    && s.senderTaken
    && (forall c <- s.enqueues :: !HoldsSender(s.enqueues[c]))
    && (forall c <- s.controls :: !s.controls[c].Offering?)
  }

  function StepOfWorker(r: Remote, outcome: Outcome, sendersGone: bool): Remote {
    match r.worker
    case Receiving =>
      if r.taken < |r.channel| then
        r.(taken := r.taken + 1,
           worker := match r.channel[r.taken]
                     case Event(_) => Transmitting
                     case Flush(c) => Answering(c, false)
                     case Shutdown(c) => Answering(c, true))
      else if sendersGone then r.(worker := Leaving)
      else r
    case Transmitting =>
      (match outcome
       case Delivers => r.(worker := Transmitted(None), results := r.results + [None])
       case Fails(f) => r.(worker := Transmitted(Some(f)), results := r.results + [Some(f)])
       case Panics => r.(worker := Leaving))
    case Transmitted(result) =>
      r.(handled := r.handled + 1,
         worker := if result.Some? then CountingFailure(result.value) else Receiving)
    case CountingFailure(f) => r.(failures := r.failures + 1, worker := RecordingFailure(f))
    case RecordingFailure(f) =>
      r.(firstFailure := if r.firstFailure.None? then Some(f) else r.firstFailure,
         worker := Receiving)
    case Answering(c, last) => r.(worker := Acknowledging(c, last, r.firstFailure))
    case Acknowledging(c, last, verdict) =>
      r.(acknowledgements := r.acknowledgements[c := verdict],
         worker := if last then Leaving else Receiving)
    case Leaving => r.(workerExited := true, worker := Marked)
    case Marked => r.(worker := Gone)
    case Gone => r
  }

  /** One atomic step. An action that does not apply leaves the state alone. */
  ghost function Perform(s: State, a: Action): State {
    match a
    case BeginEnqueue(c) =>
      if c in s.enqueues || c in s.controls then s else At(s, c, Entered)
    case StepEnqueue(c) => if c in s.enqueues then StepOfEnqueue(s, c) else s
    case BeginControl(c, shutdown) =>
      if c in s.enqueues || c in s.controls then s else ControlAt(s, c, Asking(shutdown))
    case StepControl(c) => if c in s.controls then StepOfControl(s, c) else s
    case GiveUp(c) =>
      if c in s.controls && (s.controls[c].Waiting? || s.controls[c].Fetching?)
      then ControlAt(s, c, End(s.controls[c].shutdown, TimedOut)) else s
    case StepWorker(outcome) =>
      s.(remote := StepOfWorker(s.remote, outcome, SendersGone(s)))
    case DropSink => if Quiet(s) then s.(closed := true, senderTaken := true) else s
  }

  ghost function Execute(s: State, actions: seq<Action>): State {
    if actions == [] then s
    else Perform(Execute(s, actions[..|actions| - 1]), actions[|actions| - 1])
  }

  ghost predicate NoEnqueueInProgress(s: State) {
    forall c <- s.enqueues :: IsFinished(s.enqueues[c])
  }

  /** No enqueue, flush or shutdown call is in progress. */
  ghost predicate Quiet(s: State) {
    NoEnqueueInProgress(s) && forall c <- s.controls :: s.controls[c].Returned?
  }

  // ---- What is reported, and what really happened ----

  /** The report `RemoteStatus::dropped` rebuilds from the values it loads. */
  function Report(explicitLosses: nat, exited: bool, handled: nat, accepted: int): nat {
    if !exited then explicitLosses
    else explicitLosses + if accepted <= handled then 0 else accepted - handled
  }

  function ReportedLoss(s: State): nat {
    Report(s.dropped, s.remote.workerExited, s.remote.handled, s.accepted)
  }

  /** How many of the messages are events. */
  ghost function Events(messages: seq<Message>): nat {
    if messages == [] then 0
    else Events(messages[..|messages| - 1]) + if messages[|messages| - 1].Event? then 1 else 0
  }

  /** The first failure in channel order. */
  ghost function FirstFailure(results: seq<Option<Failure>>): Option<Failure> {
    if results == [] then None
    else if results[0].Some? then results[0]
    else FirstFailure(results[1..])
  }

  ghost function Failures(results: seq<Option<Failure>>): nat {
    if results == [] then 0
    else (if results[0].Some? then 1 else 0) + Failures(results[1..])
  }

  /** Events the channel took that the transport never finished. */
  ghost function Unfinished(s: State): int {
    Events(s.remote.channel) - |s.remote.results|
  }

  // ---- The invariant ----

  ghost predicate CallsAddUp(s: State) {
    && s.accepted == Count(s.enqueues, IsSent) + Count(s.enqueues, InWindow)
    && s.dropped == Count(s.enqueues, IsLost)
    && Count(s.enqueues, IsSent) == Events(s.remote.channel)
  }

  /** The failure the worker has seen but not recorded yet. */
  function PendingFailure(w: Worker): Option<Failure> {
    match w
    case Transmitted(result) => result
    case CountingFailure(f) => Some(f)
    case RecordingFailure(f) => Some(f)
    case _ => None
  }

  predicate Stopped(w: Worker) {
    w.Leaving? || w.Marked? || w.Gone?
  }

  ghost predicate WorkerAddsUp(r: Remote) {
    && r.taken <= |r.channel| <= r.taken + r.capacity
    && r.handled + (if r.worker.Transmitted? then 1 else 0) == |r.results|
    && |r.results| <= Events(r.channel[..r.taken])
    && (r.workerExited <==> r.worker.Marked? || r.worker.Gone?)
    && (r.worker.Transmitting? ==> |r.results| + 1 == Events(r.channel[..r.taken]))
    && (!r.worker.Transmitting? && !Stopped(r.worker) ==>
          |r.results| == Events(r.channel[..r.taken]))
    && (r.worker.Answering? || r.worker.Acknowledging? ==>
          0 < r.taken && Requests(r.channel[r.taken - 1], r.worker.call))
  }

  ghost predicate FailuresAddUp(r: Remote) {
    && (PendingFailure(r.worker).Some? ==>
          && r.results != []
          && r.results[|r.results| - 1] == PendingFailure(r.worker)
          && r.firstFailure == FirstFailure(r.results[..|r.results| - 1]))
    && (PendingFailure(r.worker).None? ==> r.firstFailure == FirstFailure(r.results))
    && (r.worker.Acknowledging? ==> r.worker.verdict == r.firstFailure)
    && r.failures
         + (if PendingFailure(r.worker).Some? && !r.worker.RecordingFailure? then 1 else 0)
       == Failures(r.results)
  }

  predicate Requests(m: Message, c: CallId) {
    m == Flush(c) || m == Shutdown(c)
  }

  /** At `position` every event ahead in the channel was attempted, and `verdict` is the first
      failure among them in channel order. */
  ghost predicate IsBarrier(r: Remote, position: nat, verdict: Option<Failure>)
    requires position < |r.channel|
  {
    && Events(r.channel[..position]) <= |r.results|
    && verdict == FirstFailure(r.results[..Events(r.channel[..position])])
  }

  /** `verdict` is what a request of call `c`, at its own place in the channel, had to answer. */
  ghost predicate IsEarned(r: Remote, c: CallId, verdict: Option<Failure>) {
    exists i: nat ::
      i < |r.channel| && Requests(r.channel[i], c) && IsBarrier(r, i, verdict)
  }

  ghost predicate AcknowledgementsAreEarned(r: Remote) {
    forall c <- r.acknowledgements :: IsEarned(r, c, r.acknowledgements[c])
  }

  ghost predicate AnswersAreEarned(controls: map<CallId, Control>, r: Remote) {
    forall c <- controls :: AnswerIsEarned(r, c, controls[c])
  }

  ghost predicate AnswerIsEarned(r: Remote, c: CallId, k: Control) {
    (k.Closing? || k.Returned?) && k.answer.Acknowledged? ==> IsEarned(r, c, k.answer.verdict)
  }

  ghost predicate Inv(s: State) {
    && CallsAddUp(s)
    && WorkerAddsUp(s.remote)
    && FailuresAddUp(s.remote)
    && AcknowledgementsAreEarned(s.remote)
    && AnswersAreEarned(s.controls, s.remote)
  }

  // ---- Every step keeps the invariant ----

  lemma EventsOfOneMore(messages: seq<Message>, m: Message)
    ensures Events(messages + [m]) == Events(messages) + if m.Event? then 1 else 0
  {
    assert (messages + [m])[..|messages|] == messages;
  }

  lemma {:induction false} FailuresOfOneMore(results: seq<Option<Failure>>, last: Option<Failure>)
    ensures FirstFailure(results + [last])
         == if FirstFailure(results).Some? then FirstFailure(results) else last
    ensures Failures(results + [last]) == Failures(results) + if last.Some? then 1 else 0
  {
    if results != [] {
      FailuresOfOneMore(results[1..], last);
      assert (results + [last])[1..] == results[1..] + [last];
    }
  }

  /** What was earned stays earned while the histories only grow. */
  lemma EarnedStaysEarned(r: Remote, t: Remote, c: CallId, verdict: Option<Failure>)
    requires r.channel <= t.channel && r.results <= t.results
    requires IsEarned(r, c, verdict)
    ensures IsEarned(t, c, verdict)
  {
    var i: nat :|
      i < |r.channel| && Requests(r.channel[i], c) && IsBarrier(r, i, verdict);
    assert t.channel[..i] == r.channel[..i];
    var n := Events(r.channel[..i]);
    assert t.results[..n] == r.results[..n];
    assert Requests(t.channel[i], c) && IsBarrier(t, i, verdict);
  }

  lemma HistoriesKeepAnswers(controls: map<CallId, Control>, r: Remote, t: Remote)
    requires r.channel <= t.channel && r.results <= t.results
    requires AnswersAreEarned(controls, r) && AcknowledgementsAreEarned(r)
    ensures AnswersAreEarned(controls, t)
    ensures forall c <- r.acknowledgements :: IsEarned(t, c, r.acknowledgements[c])
  {
    forall c <- controls ensures AnswerIsEarned(t, c, controls[c]) {
      if (controls[c].Closing? || controls[c].Returned?) && controls[c].answer.Acknowledged? {
        EarnedStaysEarned(r, t, c, controls[c].answer.verdict);
      }
    }
    forall c <- r.acknowledgements ensures IsEarned(t, c, r.acknowledgements[c]) {
      EarnedStaysEarned(r, t, c, r.acknowledgements[c]);
    }
  }

  lemma AppendKeepsInv(s: State, m: Message)
    requires Inv(s) && Refusal(s.remote).None?
    ensures WorkerAddsUp(Append(s.remote, m)) && FailuresAddUp(Append(s.remote, m))
    ensures AcknowledgementsAreEarned(Append(s.remote, m))
    ensures AnswersAreEarned(s.controls, Append(s.remote, m))
    ensures Events(Append(s.remote, m).channel)
         == Events(s.remote.channel) + if m.Event? then 1 else 0
  {
    var t := Append(s.remote, m);
    assert t.channel[..t.taken] == s.remote.channel[..s.remote.taken];
    HistoriesKeepAnswers(s.controls, s.remote, t);
    EventsOfOneMore(s.remote.channel, m);
  }

  lemma StageCounts(enqueues: map<CallId, Enqueue>, c: CallId, e: Enqueue)
    ensures Count(enqueues[c := e], IsSent) == Count(enqueues, IsSent)
              - (if c in enqueues && IsSent(enqueues[c]) then 1 else 0)
              + (if IsSent(e) then 1 else 0)
    ensures Count(enqueues[c := e], IsLost) == Count(enqueues, IsLost)
              - (if c in enqueues && IsLost(enqueues[c]) then 1 else 0)
              + (if IsLost(e) then 1 else 0)
    ensures Count(enqueues[c := e], InWindow) == Count(enqueues, InWindow)
              - (if c in enqueues && InWindow(enqueues[c]) then 1 else 0)
              + (if InWindow(e) then 1 else 0)
  {
    CountAfterStore(enqueues, c, e, IsSent);
    CountAfterStore(enqueues, c, e, IsLost);
    CountAfterStore(enqueues, c, e, InWindow);
  }

  lemma EnqueueStepCounts(s: State, c: CallId)
    requires CallsAddUp(s) && c in s.enqueues
    ensures CallsAddUp(StepOfEnqueue(s, c))
  {
    hide Events, FirstFailure, Failures, Count;
    var t := StepOfEnqueue(s, c);
    var e := s.enqueues[c];
    if !IsFinished(e) {
      StageCounts(s.enqueues, c, t.enqueues[c]);
      EventsOfOneMore(s.remote.channel, Event(c));
    }
  }

  lemma EnqueueStepKeepsInv(s: State, c: CallId)
    requires Inv(s) && c in s.enqueues
    ensures Inv(StepOfEnqueue(s, c))
  {
    hide Events, FirstFailure, Failures;
    EnqueueStepCounts(s, c);
    if s.enqueues[c].Counted? && Refusal(s.remote).None? {
      AppendKeepsInv(s, Event(c));
    } else {
      assert StepOfEnqueue(s, c).remote == s.remote;
    }
  }

  lemma ControlStepKeepsInv(s: State, c: CallId)
    requires Inv(s) && c in s.controls
    ensures Inv(StepOfControl(s, c))
  {
    hide Events, FirstFailure, Failures, WorkerAddsUp, FailuresAddUp, IsEarned;
    if s.controls[c].Offering? && Refusal(s.remote).None? {
      AppendKeepsInv(s, if s.controls[c].shutdown then Shutdown(c) else Flush(c));
    } else {
      assert StepOfControl(s, c).remote == s.remote;
    }
  }

  lemma WorkerStepAddsUp(r: Remote, outcome: Outcome, sendersGone: bool)
    requires WorkerAddsUp(r)
    ensures WorkerAddsUp(StepOfWorker(r, outcome, sendersGone))
  {
    hide Events, FirstFailure, Failures;
    if r.worker.Receiving? && r.taken < |r.channel| {
      assert r.channel[..r.taken + 1] == r.channel[..r.taken] + [r.channel[r.taken]];
      EventsOfOneMore(r.channel[..r.taken], r.channel[r.taken]);
    }
  }

  lemma WorkerStepCountsFailures(r: Remote, outcome: Outcome, sendersGone: bool)
    requires FailuresAddUp(r)
    ensures FailuresAddUp(StepOfWorker(r, outcome, sendersGone))
  {
    hide Events, FirstFailure, Failures;
    if r.worker.Transmitting? && !outcome.Panics? {
      var result := if outcome.Fails? then Some(outcome.failure) else None;
      FailuresOfOneMore(r.results, result);
      assert (r.results + [result])[..|r.results|] == r.results;
    } else if r.worker.RecordingFailure? {
      var n := |r.results| - 1;
      assert r.results == r.results[..n] + [r.results[n]];
      FailuresOfOneMore(r.results[..n], r.results[n]);
    }
  }

  lemma WorkerStepEarnsAnswers(r: Remote, outcome: Outcome, sendersGone: bool)
    requires WorkerAddsUp(r) && FailuresAddUp(r) && AcknowledgementsAreEarned(r)
    ensures AcknowledgementsAreEarned(StepOfWorker(r, outcome, sendersGone))
  {
    hide Events, FirstFailure, Failures;
    var t := StepOfWorker(r, outcome, sendersGone);
    HistoriesKeepAnswers(map[], r, t);
    if r.worker.Acknowledging? {
      var i := r.taken - 1;
      assert r.channel[..r.taken] == r.channel[..i] + [r.channel[i]];
      EventsOfOneMore(r.channel[..i], r.channel[i]);
      assert r.results[..|r.results|] == r.results;
      assert Requests(t.channel[i], r.worker.call) && IsBarrier(t, i, r.worker.verdict);
    }
  }

  lemma StepKeepsInv(s: State, a: Action)
    requires Inv(s)
    ensures Inv(Perform(s, a))
  {
    hide Events, FirstFailure, Failures;
    match a
    case BeginEnqueue(c) =>
      StageCounts(s.enqueues, c, Entered);
    case StepEnqueue(c) =>
      if c in s.enqueues { EnqueueStepKeepsInv(s, c); }
    case StepControl(c) =>
      if c in s.controls { ControlStepKeepsInv(s, c); }
    case StepWorker(outcome) =>
      var gone := SendersGone(s);
      WorkerStepAddsUp(s.remote, outcome, gone);
      WorkerStepCountsFailures(s.remote, outcome, gone);
      WorkerStepEarnsAnswers(s.remote, outcome, gone);
      HistoriesKeepAnswers(s.controls, s.remote, StepOfWorker(s.remote, outcome, gone));
    case _ =>
  }

  /** Safety of every run: the invariant holds after any actions in any order. */
  lemma {:induction false} RunsKeepInv(s: State, actions: seq<Action>)
    requires Inv(s)
    ensures Inv(Execute(s, actions))
  {
    if actions != [] {
      RunsKeepInv(s, actions[..|actions| - 1]);
      StepKeepsInv(Execute(s, actions[..|actions| - 1]), actions[|actions| - 1]);
    }
  }

  lemma SpawnMeetsInv(capacity: nat, delivery: Delivery)
    ensures Inv(Spawn(capacity, delivery))
  {
    var none: map<CallId, Enqueue> := map[];
    CountIsZero(none, IsSent);
    CountIsZero(none, IsLost);
    CountIsZero(none, InWindow);
  }

  // ---- Loss accounting ----

  lemma ExitedWorkerIsStill(s: State)
    requires Inv(s)
    ensures s.remote.handled <= s.accepted
    ensures s.remote.workerExited ==> s.remote.handled == |s.remote.results|
    ensures |s.remote.results| <= Events(s.remote.channel)
  {
    EventsOfPrefix(s.remote.channel, s.remote.taken);
  }

  lemma {:induction false} EventsOfPrefix(messages: seq<Message>, n: nat)
    requires n <= |messages|
    ensures Events(messages[..n]) <= Events(messages)
    decreases |messages|
  {
    if n < |messages| {
      EventsOfPrefix(messages[..|messages| - 1], n);
      assert messages[..|messages| - 1][..n] == messages[..n];
    } else {
      assert messages[..n] == messages;
    }
  }

  /** In every reachable state the report is the events refused, plus, once the worker is gone,
      those it took or left queued without finishing, plus the calls between counting an event and
      hearing from the channel. With no enqueue in progress that last number is zero. */
  lemma {:induction false} ReportIsExact(capacity: nat, delivery: Delivery, actions: seq<Action>)
    ensures var s := Execute(Spawn(capacity, delivery), actions);
      && s.remote.handled <= s.accepted
      && Count(s.enqueues, IsSent) == Events(s.remote.channel)
      && Unfinished(s) >= 0
      && ReportedLoss(s) == Count(s.enqueues, IsLost)
           + (if s.remote.workerExited then Unfinished(s) + Count(s.enqueues, InWindow) else 0)
      && (s.remote.workerExited && NoEnqueueInProgress(s) ==>
            ReportedLoss(s) == Count(s.enqueues, IsLost) + Unfinished(s))
  {
    SpawnMeetsInv(capacity, delivery);
    RunsKeepInv(Spawn(capacity, delivery), actions);
    var s := Execute(Spawn(capacity, delivery), actions);
    ExitedWorkerIsStill(s);
    if NoEnqueueInProgress(s) {
      CountIsZero(s.enqueues, InWindow);
    }
  }

  /** The channel, the results and the counters built from them only grow; a finished call and a
      marked exit are final. */
  ghost predicate Extends(s: State, t: State) {
    && s.delivery == t.delivery
    && s.remote.channel <= t.remote.channel
    && s.remote.results <= t.remote.results
    && s.dropped <= t.dropped
    && s.remote.handled <= t.remote.handled
    && (s.remote.workerExited ==> t.remote.workerExited && t.remote.results == s.remote.results)
    && (s.remote.firstFailure.Some? ==> t.remote.firstFailure == s.remote.firstFailure)
    && (forall c <- s.enqueues | IsFinished(s.enqueues[c]) ::
          c in t.enqueues && t.enqueues[c] == s.enqueues[c])
  }

  lemma StepExtends(s: State, a: Action)
    requires s.remote.workerExited ==> Stopped(s.remote.worker)
    ensures Extends(s, Perform(s, a))
  {
    match a
    case BeginEnqueue(c) =>
    case StepEnqueue(c) => if c in s.enqueues { EnqueueStepExtends(s, c); }
    case BeginControl(c, shutdown) =>
    case StepControl(c) => if c in s.controls { ControlStepExtends(s, c); }
    case GiveUp(c) =>
    case StepWorker(outcome) => WorkerStepExtends(s, outcome);
    case DropSink =>
  }

  lemma EnqueueStepExtends(s: State, c: CallId)
    requires c in s.enqueues
    ensures Extends(s, StepOfEnqueue(s, c))
  {
    var t := StepOfEnqueue(s, c);
    OneCallMoves(s, c);
    OneCallOnlyAppends(s, c);
    hide StepOfEnqueue;
    assert forall k <- s.enqueues | IsFinished(s.enqueues[k]) :: t.enqueues[k] == s.enqueues[k];
  }

  /** A step of one call leaves the others where they are, and a finished one for good. */
  lemma OneCallMoves(s: State, c: CallId)
    requires c in s.enqueues
    ensures var t := StepOfEnqueue(s, c);
      && c in t.enqueues && (forall k <- s.enqueues | k != c :: k in t.enqueues && t.enqueues[k] == s.enqueues[k])
      && (IsFinished(s.enqueues[c]) ==> t.enqueues[c] == s.enqueues[c])
  {
    hide Refusal, Append;
  }

  lemma OneCallOnlyAppends(s: State, c: CallId)
    requires c in s.enqueues
    ensures var t := StepOfEnqueue(s, c);
      && t.delivery == s.delivery && s.remote.channel <= t.remote.channel
      && t.remote == s.remote.(channel := t.remote.channel) && s.dropped <= t.dropped
  {
    hide Refusal;
  }

  lemma ControlStepExtends(s: State, c: CallId)
    requires c in s.controls
    ensures Extends(s, StepOfControl(s, c))
  {
  }

  lemma WorkerStepExtends(s: State, outcome: Outcome)
    requires s.remote.workerExited ==> Stopped(s.remote.worker)
    ensures Extends(s, s.(remote := StepOfWorker(s.remote, outcome, SendersGone(s))))
  {
  }

  lemma {:induction false} RunsExtend(s: State, actions: seq<Action>)
    requires Inv(s)
    ensures Extends(s, Execute(s, actions))
  {
    if actions != [] {
      var shorter := actions[..|actions| - 1];
      RunsExtend(s, shorter);
      RunsKeepInv(s, shorter);
      StepExtends(Execute(s, shorter), actions[|actions| - 1]);
    }
  }

  /** The report loads its four values one after the other while calls and the worker go on.
      The subtraction never saturates, and a report that saw the exit counts exactly the losses
      counted at its first load, the events unfinished at its last and the calls in the window. */
  lemma {:induction false} RacingReportIsExact(atDropped: State, beforeExit: seq<Action>, beforeHandled: seq<Action>,
                            beforeAccepted: seq<Action>)
    requires Inv(atDropped)
    ensures var atExit := Execute(atDropped, beforeExit);
            var atHandled := Execute(atExit, beforeHandled);
            var atAccepted := Execute(atHandled, beforeAccepted);
      && atHandled.remote.handled <= atAccepted.accepted
      && (atExit.remote.workerExited ==>
            Report(atDropped.dropped, true, atHandled.remote.handled, atAccepted.accepted)
              == Count(atDropped.enqueues, IsLost) + Unfinished(atAccepted)
                   + Count(atAccepted.enqueues, InWindow))
  {
    var atExit := Execute(atDropped, beforeExit);
    RunsKeepInv(atDropped, beforeExit);
    var atHandled := Execute(atExit, beforeHandled);
    RunsKeepInv(atExit, beforeHandled);
    RunsExtend(atExit, beforeHandled);
    RunsKeepInv(atHandled, beforeAccepted);
    RunsExtend(atHandled, beforeAccepted);
    ExitedWorkerIsStill(atHandled);
    ExitedWorkerIsStill(Execute(atHandled, beforeAccepted));
  }

  /** `enqueue`'s own result: whether the caller sees an error. */
  predicate ReturnsError(delivery: Delivery, e: Enqueue) {
    match e
    case Lost(_) => delivery.Required?
    case StoppedEarly(_) => true
    case SenderGone => true
    case _ => false
  }

  /** A call stopped early only in required mode, for the failure that was recorded first. */
  ghost predicate StopsAreJustified(s: State) {
    forall c <- s.enqueues | s.enqueues[c].StoppedEarly? ::
      s.delivery.Required? && s.remote.firstFailure == Some(s.enqueues[c].failure)
  }

  lemma EnqueueStepJustifiesStops(s: State, c: CallId)
    requires StopsAreJustified(s) && c in s.enqueues
    ensures StopsAreJustified(StepOfEnqueue(s, c))
  {
    var t := StepOfEnqueue(s, c);
    OneCallMoves(s, c);
    OneCallOnlyAppends(s, c);
    if !s.enqueues[c].StoppedEarly? { StopIsForTheFirst(s, c); }
    hide StepOfEnqueue;
    forall k <- t.enqueues | k != c && t.enqueues[k].StoppedEarly? ensures k in s.enqueues {
      OneCallAddsNone(s, c, k);
    }
  }

  lemma OneCallAddsNone(s: State, c: CallId, k: CallId)
    requires c in s.enqueues && k in StepOfEnqueue(s, c).enqueues
    ensures k in s.enqueues
  {
    hide Refusal, Append;
  }

  lemma StopIsForTheFirst(s: State, c: CallId)
    requires c in s.enqueues && !s.enqueues[c].StoppedEarly?
    ensures var t := StepOfEnqueue(s, c);
      c in t.enqueues && (t.enqueues[c].StoppedEarly? ==>
        s.delivery.Required? && s.remote.firstFailure == Some(t.enqueues[c].failure))
  {
    hide Refusal, Append;
  }

  /** The other steps leave every enqueue but a new one where it is. */
  lemma OtherStepsStopNothing(s: State, a: Action, k: CallId)
    requires !a.StepEnqueue? && k in Perform(s, a).enqueues && Perform(s, a).enqueues[k].StoppedEarly?
    ensures k in s.enqueues && s.enqueues[k] == Perform(s, a).enqueues[k]
  {
    hide SendersGone, Quiet, StepOfWorker, Refusal, Append;
  }

  lemma StepJustifiesStops(s: State, a: Action)
    requires StopsAreJustified(s) && Extends(s, Perform(s, a))
    ensures StopsAreJustified(Perform(s, a))
  {
    if a.StepEnqueue? {
      hide Extends, StepOfEnqueue;
      if a.call in s.enqueues { EnqueueStepJustifiesStops(s, a.call); }
    } else {
      var t := Perform(s, a);
      forall k <- t.enqueues | t.enqueues[k].StoppedEarly?
        ensures t.delivery.Required? && t.remote.firstFailure == Some(t.enqueues[k].failure)
      {
        OtherStepsStopNothing(s, a, k);
        hide Perform;
      }
    }
  }

  lemma {:induction false} RunsJustifyStops(s: State, actions: seq<Action>)
    requires Inv(s) && StopsAreJustified(s)
    ensures StopsAreJustified(Execute(s, actions))
  {
    if actions != [] {
      var shorter := actions[..|actions| - 1];
      RunsJustifyStops(s, shorter);
      RunsKeepInv(s, shorter);
      StepExtends(Execute(s, shorter), actions[|actions| - 1]);
      StepJustifiesStops(Execute(s, shorter), actions[|actions| - 1]);
    }
  }

  /** No event disappears silently. A finished enqueue returned `Ok` exactly when the channel took
      the event or, in best-effort mode, the loss was counted; uncounted losses are the early
      return in required mode and the sender already taken, and both return an error. */
  lemma {:induction false} NoLossIsSilent(capacity: nat, delivery: Delivery, actions: seq<Action>, c: CallId)
    requires var s := Execute(Spawn(capacity, delivery), actions);
      c in s.enqueues && IsFinished(s.enqueues[c])
    ensures var s := Execute(Spawn(capacity, delivery), actions);
            var e := s.enqueues[c];
      && (delivery.Required? ==> (ReturnsError(delivery, e) <==> !e.Sent?))
      && (delivery.BestEffort? ==> (ReturnsError(delivery, e) <==> e.SenderGone?))
      && (e.StoppedEarly? ==> FirstFailure(s.remote.results) == Some(e.failure))
  {
    var start := Spawn(capacity, delivery);
    SpawnMeetsInv(capacity, delivery);
    RunsKeepInv(start, actions);
    RunsExtend(start, actions);
    RunsJustifyStops(start, actions);
    var r := Execute(start, actions).remote;
    if r.firstFailure.Some? && PendingFailure(r.worker).Some? {
      var n := |r.results| - 1;
      assert r.results == r.results[..n] + [r.results[n]];
      FailuresOfOneMore(r.results[..n], r.results[n]);
    }
  }

  // ---- Flush and shutdown as barriers ----

  /** When a flush or shutdown call returns the worker's acknowledgement, every event ahead of its
      request in the channel has been attempted, and the verdict is an error exactly when one of
      them failed, naming the first failure in channel order. */
  lemma {:induction false} AcknowledgementIsBarrier(capacity: nat, delivery: Delivery, actions: seq<Action>, c: CallId)
    requires var s := Execute(Spawn(capacity, delivery), actions);
      c in s.controls && s.controls[c].Returned? && s.controls[c].answer.Acknowledged?
    ensures var s := Execute(Spawn(capacity, delivery), actions);
      exists i: nat :: i < |s.remote.channel| && Requests(s.remote.channel[i], c)
        && IsBarrier(s.remote, i, s.controls[c].answer.verdict)
  {
    SpawnMeetsInv(capacity, delivery);
    RunsKeepInv(Spawn(capacity, delivery), actions);
    var s := Execute(Spawn(capacity, delivery), actions);
    assert AnswerIsEarned(s.remote, c, s.controls[c]);
  }

  // ---- What a flush tells its caller ----

  /** Events reported as sent are in the channel, and a request in the channel is some call's. */
  ghost predicate Traceable(s: State) {
    && (forall c <- s.enqueues | s.enqueues[c].Sent? :: Event(c) in s.remote.channel)
    && (forall m <- s.remote.channel | !m.Event? :: m.call in s.controls)
  }

  lemma SendIsAppended(s: State, c: CallId)
    requires c in s.enqueues
    ensures var t := StepOfEnqueue(s, c);
      && t.controls == s.controls && c in t.enqueues
      && t.remote.channel in {s.remote.channel, s.remote.channel + [Event(c)]}
      && (t.enqueues[c].Sent? && !s.enqueues[c].Sent? ==> t.remote.channel == s.remote.channel + [Event(c)])
  {
    hide Refusal;
  }

  lemma EnqueueStepIsTraceable(s: State, c: CallId)
    requires Traceable(s) && c in s.enqueues
    ensures Traceable(StepOfEnqueue(s, c))
  {
    var t := StepOfEnqueue(s, c);
    SendIsAppended(s, c);
    OneCallMoves(s, c);
    hide StepOfEnqueue;
    forall k <- t.enqueues | t.enqueues[k].Sent? ensures Event(k) in t.remote.channel {
      OneCallAddsNone(s, c, k);
      assert k != c ==> s.enqueues[k].Sent?;
      assert Event(k) in s.remote.channel ==> Event(k) in t.remote.channel;
    }
  }

  /** The other steps send nothing, and put at most a known call's request into the channel. */
  lemma OtherStepsAppendRequests(s: State, a: Action)
    requires !a.StepEnqueue?
    ensures var t := Perform(s, a);
      && s.controls.Keys <= t.controls.Keys
      && (t.remote.channel == s.remote.channel
          || (a.StepControl? && a.call in t.controls
              && t.remote.channel in {s.remote.channel + [Flush(a.call)], s.remote.channel + [Shutdown(a.call)]}))
  {
    hide SendersGone, Quiet, StepOfControl;
    if a.StepControl? && a.call in s.controls { ControlStepAppends(s, a.call); }
  }

  lemma ControlStepAppends(s: State, c: CallId)
    requires c in s.controls
    ensures var t := StepOfControl(s, c);
      && s.controls.Keys <= t.controls.Keys
      && t.remote.channel in {s.remote.channel, s.remote.channel + [Flush(c)], s.remote.channel + [Shutdown(c)]}
  {
    hide Refusal;
  }

  lemma OtherStepsSendNothing(s: State, a: Action, k: CallId)
    requires !a.StepEnqueue? && k in Perform(s, a).enqueues && Perform(s, a).enqueues[k].Sent?
    ensures k in s.enqueues && s.enqueues[k].Sent?
  {
    hide SendersGone, Quiet, StepOfWorker, Refusal, Append;
  }

  lemma StepIsTraceable(s: State, a: Action)
    requires Traceable(s)
    ensures Traceable(Perform(s, a))
  {
    if a.StepEnqueue? {
      hide StepOfEnqueue;
      if a.call in s.enqueues { EnqueueStepIsTraceable(s, a.call); }
    } else {
      var t := Perform(s, a);
      OtherStepsAppendRequests(s, a);
      forall k <- t.enqueues | t.enqueues[k].Sent? ensures Event(k) in t.remote.channel {
        OtherStepsSendNothing(s, a, k);
        hide Perform;
      }
    }
  }

  lemma {:induction false} RunsAreTraceable(capacity: nat, delivery: Delivery, actions: seq<Action>)
    ensures Traceable(Execute(Spawn(capacity, delivery), actions))
  {
    if actions != [] {
      var shorter := actions[..|actions| - 1];
      RunsAreTraceable(capacity, delivery, shorter);
      StepIsTraceable(Execute(Spawn(capacity, delivery), shorter), actions[|actions| - 1]);
    }
  }

  /** The event of a call stands in the channel and was attempted with this result. */
  ghost predicate Attempted(r: Remote, c: CallId, result: Option<Failure>) {
    exists e: nat :: e < |r.channel| && r.channel[e] == Event(c)
      && Events(r.channel[..e]) < |r.results| && r.results[Events(r.channel[..e])] == result
  }

  /** For callers: when a flush or shutdown that began after an enqueue had returned its event as sent
      comes back acknowledged, that event was attempted, and if it failed the verdict is an error. */
  lemma {:induction false} FlushCoversEarlierEvents(capacity: nat, delivery: Delivery, before: seq<Action>,
                                                    after: seq<Action>, c: CallId, k: CallId)
    returns (result: Option<Failure>)
    requires var s := Execute(Spawn(capacity, delivery), before);
      c in s.enqueues && s.enqueues[c].Sent? && k !in s.controls
    requires var t := Execute(Execute(Spawn(capacity, delivery), before), after);
      k in t.controls && t.controls[k].Returned? && t.controls[k].answer.Acknowledged?
    ensures var t := Execute(Execute(Spawn(capacity, delivery), before), after);
      Attempted(t.remote, c, result) && (result.Some? ==> t.controls[k].answer.verdict.Some?)
  {
    var start := Spawn(capacity, delivery);
    var s := Execute(start, before);
    var t := Execute(s, after);
    SpawnMeetsInv(capacity, delivery);
    RunsKeepInv(start, before);
    RunsExtend(s, after);
    RunsAreTraceable(capacity, delivery, before);
    ExecuteConcat(start, before, after);
    AcknowledgementIsBarrier(capacity, delivery, before + after, k);
    var i: nat :| i < |t.remote.channel| && Requests(t.remote.channel[i], k)
      && IsBarrier(t.remote, i, t.controls[k].answer.verdict);
    hide Execute;
    result := AheadOfRequest(s, t.remote, c, k, i, t.controls[k].answer.verdict);
  }

  lemma AheadOfRequest(s: State, r: Remote, c: CallId, k: CallId, i: nat, verdict: Option<Failure>)
    returns (result: Option<Failure>)
    requires Traceable(s) && c in s.enqueues && s.enqueues[c].Sent? && k !in s.controls
    requires s.remote.channel <= r.channel
    requires i < |r.channel| && Requests(r.channel[i], k) && IsBarrier(r, i, verdict)
    ensures Attempted(r, c, result) && (result.Some? ==> verdict.Some?)
  {
    hide Events, FirstFailure;
    var e: nat :| e < |s.remote.channel| && s.remote.channel[e] == Event(c);
    forall j: nat | j < |s.remote.channel| ensures !Requests(r.channel[j], k) {
      assert r.channel[j] == s.remote.channel[j] && s.remote.channel[j] in s.remote.channel;
    }
    assert e < i && r.channel[e] == Event(c);
    hide Traceable;
    EventIsCounted(r.channel, e, i);
    result := r.results[Events(r.channel[..e])];
    FailureIsAmong(r.results, Events(r.channel[..e]), Events(r.channel[..i]));
  }

  lemma EventIsCounted(messages: seq<Message>, e: nat, i: nat)
    requires e < i <= |messages| && messages[e].Event?
    ensures Events(messages[..e]) < Events(messages[..i])
  {
    hide Events;
    assert messages[..e + 1] == messages[..e] + [messages[e]];
    EventsOfOneMore(messages[..e], messages[e]);
    EventsOfPrefix(messages[..i], e + 1);
    assert messages[..i][..e + 1] == messages[..e + 1];
  }

  lemma FailureIsAmong(results: seq<Option<Failure>>, n: nat, m: nat)
    requires n < m <= |results|
    ensures results[n].Some? ==> FirstFailure(results[..m]).Some?
  {
    hide FirstFailure;
    FirstFailureIsFirst(results[..m]);
    assert results[..m][n] == results[n] && results[..m][n] in results[..m];
  }

  /** Whether `flush`, or the control part of `shutdown`, returns an error for an answer. */
  predicate ControlReturnsError(delivery: Delivery, answer: Answer) {
    match answer
    case Acknowledged(verdict) => delivery.Required? && verdict.Some?
    case Ignored => false
    case TimedOut => true
    case AlreadyShutDown => true
    case WorkerGone => delivery.Required?
  }

  /** With required delivery, a flush that succeeds means that every event sent before it began was
      delivered. (A second shutdown succeeds without asking the worker.) */
  lemma {:induction false} SuccessfulFlushDelivered(capacity: nat, before: seq<Action>, after: seq<Action>,
                                                    c: CallId, k: CallId)
    requires var s := Execute(Spawn(capacity, Required), before);
      c in s.enqueues && s.enqueues[c].Sent? && k !in s.controls
    requires var t := Execute(Execute(Spawn(capacity, Required), before), after);
      && k in t.controls && t.controls[k].Returned? && !t.controls[k].answer.Ignored?
      && !ControlReturnsError(Required, t.controls[k].answer)
    ensures Attempted(Execute(Execute(Spawn(capacity, Required), before), after).remote, c, None)
  {
    hide Execute, Attempted;
    var result := FlushCoversEarlierEvents(capacity, Required, before, after, c, k);
  }

  /** The first failure is a failure, and nothing before it failed. */
  lemma {:induction false} FirstFailureIsFirst(results: seq<Option<Failure>>)
    ensures FirstFailure(results).None? <==> forall r <- results :: r.None?
    ensures FirstFailure(results).Some? ==>
      exists i :: 0 <= i < |results| && results[i] == FirstFailure(results)
        && forall j | 0 <= j < i :: results[j].None?
  {
    if results != [] && results[0].None? {
      FirstFailureIsFirst(results[1..]);
      assert results == [results[0]] + results[1..];
      if FirstFailure(results).Some? {
        var i :| 0 <= i < |results[1..]| && results[1..][i] == FirstFailure(results[1..])
          && forall j | 0 <= j < i :: results[1..][j].None?;
        assert results[i + 1] == FirstFailure(results);
        assert forall j | 0 <= j < i + 1 :: results[j].None? by {
          forall j | 0 <= j < i + 1 ensures results[j].None? {
            if j > 0 { assert results[j] == results[1..][j - 1]; }
          }
        }
      }
    } else if results != [] {
      assert results[0] == FirstFailure(results);
    }
  }

  // ---- The window between the exit mark and the receiver's end ----

  lemma {:induction false} ExecuteConcat(s: State, a: seq<Action>, b: seq<Action>)
    ensures Execute(s, a + b) == Execute(Execute(s, a), b)
  {
    if b == [] {
      assert a + b == a;
    } else {
      var n := |b| - 1;
      assert (a + b)[..|a + b| - 1] == a + b[..n];
      ExecuteConcat(s, a, b[..n]);
    }
  }

  lemma ExecuteOneMore(s: State, actions: seq<Action>, a: Action)
    ensures Execute(s, actions + [a]) == Perform(Execute(s, actions), a)
  {
    hide Perform;
    assert (actions + [a])[..|actions|] == actions;
  }

  /** One enqueue call and its first steps. */
  function Advancing(c: CallId, steps: nat): seq<Action> {
    if steps == 0 then [BeginEnqueue(c)] else Advancing(c, steps - 1) + [StepEnqueue(c)]
  }

  /** One enqueue from its first check to the channel's answer, alone. */
  function Sending(c: CallId): seq<Action> {
    Advancing(c, 5)
  }

  /** Where an undisturbed best-effort enqueue stands after its first steps. */
  function Reached(steps: nat): Enqueue {
    match steps
    case 0 => Entered
    case 1 => Admitted
    case 2 => Cleared
    case 3 => Holding
    case _ => Counted
  }

  function Standing(s: State, c: CallId, steps: nat): State {
    s.(accepted := s.accepted + (if steps == 4 then 1 else 0), enqueues := s.enqueues[c := Reached(steps)])
  }

  lemma {:induction false} EnqueueAdvances(s: State, c: CallId, steps: nat)
    requires c !in s.enqueues && c !in s.controls && steps <= 4
    requires !s.closed && !s.senderTaken && s.delivery.BestEffort?
    ensures Execute(s, Advancing(c, steps)) == Standing(s, c, steps)
  {
    hide Perform, Standing;
    if steps == 0 {
      assert [] + [BeginEnqueue(c)] == [BeginEnqueue(c)];
      ExecuteOneMore(s, [], BeginEnqueue(c));
      StandingFirst(s, c);
    } else {
      EnqueueAdvances(s, c, steps - 1);
      ExecuteOneMore(s, Advancing(c, steps - 1), StepEnqueue(c));
      StandingAdvances(s, c, steps - 1);
    }
  }

  lemma StandingFirst(s: State, c: CallId)
    requires c !in s.enqueues && c !in s.controls
    ensures Perform(s, BeginEnqueue(c)) == Standing(s, c, 0)
  {
  }

  lemma StandingAdvances(s: State, c: CallId, steps: nat)
    requires steps <= 3 && !s.closed && !s.senderTaken && s.delivery.BestEffort?
    ensures Perform(Standing(s, c, steps), StepEnqueue(c)) == Standing(s, c, steps + 1)
  {
    hide StepOfEnqueue, Reached;
    ReachesNext(Standing(s, c, steps), c, steps);
    assert s.enqueues[c := Reached(steps)][c := Reached(steps + 1)] == s.enqueues[c := Reached(steps + 1)];
  }

  lemma ReachesNext(s: State, c: CallId, steps: nat)
    requires steps <= 3 && c in s.enqueues && s.enqueues[c] == Reached(steps)
    requires !s.closed && !s.senderTaken && s.delivery.BestEffort?
    ensures StepOfEnqueue(s, c)
         == At(s.(accepted := s.accepted + if steps == 3 then 1 else 0), c, Reached(steps + 1))
  {
    hide Refusal;
  }

  lemma EnqueueAlone(s: State, c: CallId)
    requires c !in s.enqueues && c !in s.controls
    requires !s.closed && !s.senderTaken && s.delivery.BestEffort?
    ensures var counted := s.(accepted := s.accepted + 1, enqueues := s.enqueues[c := Counted]);
      Execute(s, Sending(c)) == StepOfEnqueue(counted, c)
  {
    hide StepOfEnqueue;
    EnqueueAdvances(s, c, 4);
    ExecuteOneMore(s, Advancing(c, 4), StepEnqueue(c));
  }

  /** The transport panics on event 0 and the exit guard runs; the receiver is still open. */
  function UntilExitMark(): seq<Action> {
    Sending(0) + Dying()
  }

  /** The worker takes an event, panics while sending it, and its guard runs. */
  function Dying(): seq<Action> {
    [StepWorker(Delivers), StepWorker(Panics), StepWorker(Delivers)]
  }

  /** Event 1 is sent before the receiver goes. */
  function UntilSecondSend(): seq<Action> {
    UntilExitMark() + Sending(1)
  }

  /** The receiver goes and takes both events along; event 2 is refused and its loss counted. */
  function UntilTheEnd(): seq<Action> {
    UntilSecondSend() + ([StepWorker(Delivers)] + (Sending(2) + [StepEnqueue(2), StepEnqueue(2)]))
  }

  ghost predicate MarkedWithOneSent(s: State) {
    && s.delivery.BestEffort? && !s.closed && !s.senderTaken && s.accepted == 1 && s.dropped == 0
    && s.enqueues == map[0 := Sent] && s.controls == map[]
    && s.remote.capacity == 2 && s.remote.channel == [Event(0)] && s.remote.taken == 1
    && s.remote.worker == Marked && s.remote.handled == 0 && s.remote.workerExited
  }

  lemma PanicOnFirstEvent()
    ensures MarkedWithOneSent(Execute(Spawn(2, BestEffort), UntilExitMark()))
  {
    var start := Spawn(2, BestEffort);
    FirstEventIsSent();
    ExecuteConcat(start, Sending(0), Dying());
    WorkerDies(Execute(start, Sending(0)));
  }

  lemma FirstEventIsSent()
    ensures var start := Spawn(2, BestEffort);
      Execute(start, Sending(0))
        == start.(accepted := 1, enqueues := map[0 := Sent], remote := start.remote.(channel := [Event(0)]))
  {
    hide StepOfControl, StepOfWorker, SendersGone, Quiet, Execute, Perform, Sending;
    var start := Spawn(2, BestEffort);
    EnqueueAlone(start, 0);
    assert start.enqueues[0 := Counted][0 := Sent] == map[0 := Sent];
    assert start.remote.channel + [Event(0)] == [Event(0)];
  }

  lemma WorkerDies(s: State)
    requires s.remote.worker.Receiving? && s.remote.taken < |s.remote.channel|
    requires s.remote.channel[s.remote.taken].Event?
    ensures Execute(s, Dying())
         == s.(remote := s.remote.(taken := s.remote.taken + 1, worker := Marked, workerExited := true))
  {
    hide StepOfWorker, StepOfControl, StepOfEnqueue, SendersGone, Quiet, Execute;
    ThreeSteps(s, StepWorker(Delivers), StepWorker(Panics), StepWorker(Delivers));
    var took := Perform(s, StepWorker(Delivers));
    TakeAndPanic(s.remote, SendersGone(s));
    TakeAndPanic(s.remote, SendersGone(took));
    TakeAndPanic(s.remote, SendersGone(Perform(took, StepWorker(Panics))));
  }

  /** A worker that dies while it sends leaves nothing behind but the mark. */
  lemma TakeAndPanic(r: Remote, sendersGone: bool)
    requires r.worker.Receiving? && r.taken < |r.channel| && r.channel[r.taken].Event?
    ensures var took := StepOfWorker(r, Delivers, sendersGone);
      took == r.(taken := r.taken + 1, worker := Transmitting)
    ensures var took := r.(taken := r.taken + 1, worker := Transmitting);
      StepOfWorker(took, Panics, sendersGone) == took.(worker := Leaving)
    ensures var dying := r.(taken := r.taken + 1, worker := Leaving);
      StepOfWorker(dying, Delivers, sendersGone) == dying.(worker := Marked, workerExited := true)
  {
  }

  lemma ThreeSteps(s: State, a: Action, b: Action, c: Action)
    ensures Execute(s, [a, b, c]) == Perform(Perform(Perform(s, a), b), c)
    ensures Execute(s, [a, b]) == Perform(Perform(s, a), b)
    ensures Execute(s, [a]) == Perform(s, a)
  {
    hide Perform;
    ExecuteConcat(s, [a], [b]);
    ExecuteConcat(s, [a, b], [c]);
    assert [a] + [b] == [a, b] && [a, b] + [c] == [a, b, c];
    assert forall t, x :: Execute(t, [x]) == Perform(t, x) by {
      forall t, x ensures Execute(t, [x]) == Perform(t, x) {
        assert [x][..0] == [];
      }
    }
  }

  lemma LateSendThenTheEnd(s: State)
    requires MarkedWithOneSent(s)
    ensures var sent := Execute(s, Sending(1));
      && sent.enqueues == map[0 := Sent, 1 := Sent]
      && var gone := Execute(sent, [StepWorker(Delivers)]);
         && gone.remote.worker == Gone && gone.remote.workerExited && gone.remote.handled == 0
         && gone.accepted == 2 && gone.dropped == 0 && gone.enqueues == sent.enqueues
         && gone.controls == map[] && gone.delivery.BestEffort? && !gone.closed && !gone.senderTaken
  {
    EnqueueAlone(s, 1);
    var sent := Execute(s, Sending(1));
    ThreeSteps(sent, StepWorker(Delivers), StepWorker(Delivers), StepWorker(Delivers));
  }

  lemma RefusedAfterTheEnd(s: State)
    requires s.remote.worker == Gone && 2 !in s.enqueues && s.controls == map[]
    requires s.delivery.BestEffort? && !s.closed && !s.senderTaken
    ensures var t := Execute(s, Sending(2) + [StepEnqueue(2), StepEnqueue(2)]);
      && t.enqueues == s.enqueues[2 := Lost(Disconnected)] && t.remote == s.remote
      && t.accepted == s.accepted && t.dropped == s.dropped + 1
  {
    hide StepOfControl, StepOfWorker, SendersGone, Quiet;
    EnqueueAlone(s, 2);
    var refused := Execute(s, Sending(2));
    ExecuteConcat(s, Sending(2), [StepEnqueue(2), StepEnqueue(2)]);
    ThreeSteps(refused, StepEnqueue(2), StepEnqueue(2), StepEnqueue(2));
    hide Execute;
    var counted := s.(accepted := s.accepted + 1, enqueues := s.enqueues[2 := Counted]);
    CountedThenRefused(counted, 2);
    assert counted.enqueues[2 := Lost(Disconnected)] == s.enqueues[2 := Lost(Disconnected)];
  }

  lemma CountedThenRefused(s: State, c: CallId)
    requires c in s.enqueues && s.enqueues[c].Counted? && s.remote.worker.Gone?
    ensures var refused := StepOfEnqueue(s, c);
      && refused == At(s, c, Refused(Disconnected))
      && var taken := StepOfEnqueue(refused, c);
         && c in taken.enqueues
         && var t := StepOfEnqueue(taken, c);
            && t.enqueues == s.enqueues[c := Lost(Disconnected)] && t.remote == s.remote
            && t.accepted == s.accepted - 1 && t.dropped == s.dropped + 1
  {
    var refused := StepOfEnqueue(s, c);
    assert refused == At(s, c, Refused(Disconnected));
    var taken := StepOfEnqueue(refused, c);
    assert taken == At(s.(accepted := s.accepted - 1), c, TakenBack(Disconnected));
  }

  /** A send can still succeed after `worker_exited` is set. In this run the transport panics on
      event 0, event 1 is accepted between the mark and the receiver's end, event 2 is refused as
      disconnected; the report counts all three. */
  lemma {:induction false} SendSucceedsAfterExitMark()
    ensures var marked := Execute(Spawn(2, BestEffort), UntilExitMark());
      marked.remote.workerExited && 1 !in marked.enqueues
    ensures var sent := Execute(Spawn(2, BestEffort), UntilSecondSend());
      1 in sent.enqueues && sent.enqueues[1] == Sent
    ensures var end := Execute(Spawn(2, BestEffort), UntilTheEnd());
      NoEnqueueInProgress(end) && ReportedLoss(end) == 3
  {
    hide StepOfEnqueue, StepOfWorker, Perform, Execute, Sending, UntilExitMark, Spawn;
    var start := Spawn(2, BestEffort);
    PanicOnFirstEvent();
    var marked := Execute(start, UntilExitMark());
    LateSendThenTheEnd(marked);
    ExecuteConcat(start, UntilExitMark(), Sending(1));
    var sent := Execute(start, UntilSecondSend());
    var refusal := Sending(2) + [StepEnqueue(2), StepEnqueue(2)];
    ExecuteConcat(start, UntilSecondSend(), [StepWorker(Delivers)] + refusal);
    ExecuteConcat(sent, [StepWorker(Delivers)], refusal);
    RefusedAfterTheEnd(Execute(sent, [StepWorker(Delivers)]));
  }
}

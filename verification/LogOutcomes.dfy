/** Which outcome the sink's state forces on a call, and what every outcome says about that state. */
module LogOutcomes {
  import opened Counting
  import opened LogDelivery
  import opened Wrappers

  // ---- One call in a run of many ----

  /** What any step but the call's own leaves of it. */
  lemma OtherStepsLeave(s: State, a: Action, c: CallId)
    requires a != StepEnqueue(c)
    ensures var t := Perform(s, a);
      && (c in t.enqueues <==> c in s.enqueues || (a == BeginEnqueue(c) && c !in s.controls))
      && (c in s.enqueues ==> t.enqueues[c] == s.enqueues[c])
      && (c in t.enqueues && c !in s.enqueues ==> t.enqueues[c] == Entered)
  {
    hide SendersGone, Quiet, StepOfWorker, StepOfControl, StepOfEnqueue;
    if a.StepEnqueue? && a.call in s.enqueues {
      OneCallMoves(s, a.call);
      if c in Perform(s, a).enqueues { OneCallAddsNone(s, a.call, c); }
    }
    if a.StepControl? && a.call in s.controls { ControlStepLeavesEnqueues(s, a.call); }
  }

  lemma ControlStepLeavesEnqueues(s: State, k: CallId)
    requires k in s.controls
    ensures StepOfControl(s, k).enqueues == s.enqueues
    ensures StepOfControl(s, k).closed == (s.closed || s.controls[k] == Asking(true))
    ensures StepOfControl(s, k).delivery == s.delivery
  {
    hide Refusal, Append;
  }

  lemma OtherStepsSendOthers(s: State, a: Action, c: CallId)
    requires a != StepEnqueue(c)
    ensures Event(c) in Perform(s, a).remote.channel <==> Event(c) in s.remote.channel
  {
    hide SendersGone, Quiet, StepOfWorker, StepOfControl, StepOfEnqueue;
    if a.StepEnqueue? && a.call in s.enqueues {
      SendIsAppended(s, a.call);
    } else if !a.StepEnqueue? {
      OtherStepsAppendRequests(s, a);
    }
  }

  /** What no step undoes: a closed sink, the delivery mode, a recorded failure, a dropped receiver. */
  lemma NothingReopens(s: State, a: Action)
    ensures var t := Perform(s, a);
      && t.delivery == s.delivery && (s.closed ==> t.closed)
      && (s.remote.firstFailure.Some? ==> t.remote.firstFailure == s.remote.firstFailure)
      && (s.remote.worker.Gone? ==> t.remote.worker.Gone?)
  {
    hide SendersGone, Quiet, StepOfControl, StepOfEnqueue;
    if a.StepEnqueue? && a.call in s.enqueues {
      OneCallOnlyAppends(s, a.call);
      OwnStepKeepsClosed(s, a.call);
    }
    if a.StepControl? && a.call in s.controls { ControlStepKeepsWorker(s, a.call); }
  }

  lemma ControlStepKeepsWorker(s: State, k: CallId)
    requires k in s.controls
    ensures var t := StepOfControl(s, k);
      && t.remote == s.remote.(channel := t.remote.channel) && t.delivery == s.delivery
      && (s.closed ==> t.closed)
  {
    hide Refusal;
  }

  /** An event is in the channel exactly when its call was told it was sent. */
  ghost predicate Placed(s: State, c: CallId) {
    Event(c) in s.remote.channel <==> c in s.enqueues && s.enqueues[c].Sent?
  }

  lemma StepKeepsPlaced(s: State, a: Action, c: CallId)
    requires Placed(s, c)
    ensures Placed(Perform(s, a), c)
  {
    if a == StepEnqueue(c) {
      hide StepOfEnqueue;
      if c in s.enqueues {
        SendIsAppended(s, c);
        OneCallMoves(s, c);
        OwnStepSends(s, c);
      }
    } else {
      OtherStepsLeave(s, a, c);
      OtherStepsSendOthers(s, a, c);
      hide Perform;
    }
  }

  lemma OwnStepSends(s: State, c: CallId)
    requires c in s.enqueues
    ensures var t := StepOfEnqueue(s, c);
      c in t.enqueues && (t.remote.channel != s.remote.channel ==> t.enqueues[c].Sent?)
  {
    hide Refusal;
  }

  lemma {:induction false} RunsKeepPlaced(capacity: nat, delivery: Delivery, actions: seq<Action>, c: CallId)
    ensures Placed(Execute(Spawn(capacity, delivery), actions), c)
  {
    if actions != [] {
      var shorter := actions[..|actions| - 1];
      RunsKeepPlaced(capacity, delivery, shorter, c);
      StepKeepsPlaced(Execute(Spawn(capacity, delivery), shorter), actions[|actions| - 1], c);
    }
  }

  // ---- A closed sink ----

  /** The sink is closed and the call can only be turned away. */
  ghost predicate TurnsAway(s: State, c: CallId) {
    && s.closed && Event(c) !in s.remote.channel
    && (c in s.enqueues ==> s.enqueues[c] in {Entered, TurnedAway, Lost(Closed)})
  }

  lemma StepTurnsAway(s: State, a: Action, c: CallId)
    requires TurnsAway(s, c)
    ensures TurnsAway(Perform(s, a), c)
  {
    NothingReopens(s, a);
    if a == StepEnqueue(c) {
      if c in s.enqueues { hide Refusal; }
    } else {
      OtherStepsLeave(s, a, c);
      OtherStepsSendOthers(s, a, c);
      hide Perform;
    }
  }

  lemma {:induction false} RunsTurnAway(s: State, actions: seq<Action>, c: CallId)
    requires TurnsAway(s, c)
    ensures TurnsAway(Execute(s, actions), c)
  {
    if actions != [] {
      var shorter := actions[..|actions| - 1];
      RunsTurnAway(s, shorter, c);
      StepTurnsAway(Execute(s, shorter), actions[|actions| - 1], c);
    }
  }

  /** A call that begins on a closed sink, whatever else runs beside it, can finish in one way only:
      its event is lost as closed, never enters the channel, and is one more in the report; the caller
      sees an error exactly with required delivery. */
  lemma {:induction false} ClosedSinkCountsTheLoss(capacity: nat, delivery: Delivery, before: seq<Action>,
                                                   after: seq<Action>, c: CallId)
    requires var s := Execute(Spawn(capacity, delivery), before); s.closed && c !in s.enqueues
    requires var t := Execute(Execute(Spawn(capacity, delivery), before), after);
      c in t.enqueues && IsFinished(t.enqueues[c])
    ensures var s := Execute(Spawn(capacity, delivery), before);
            var t := Execute(s, after);
      && t.enqueues[c] == Lost(Closed) && Event(c) !in t.remote.channel
      && ReportedLoss(t) >= t.dropped >= s.dropped + 1
      && (ReturnsError(delivery, t.enqueues[c]) <==> delivery.Required?)
  {
    var start := Spawn(capacity, delivery);
    var s := Execute(start, before);
    RunsKeepPlaced(capacity, delivery, before, c);
    RunsTurnAway(s, after, c);
    SpawnMeetsInv(capacity, delivery);
    RunsKeepInv(start, before);
    RunsKeepInv(s, after);
    RunsExtend(s, after);
    OneMoreLoss(s, Execute(s, after), c);
  }

  lemma OneMoreLoss(s: State, t: State, c: CallId)
    requires CallsAddUp(s) && CallsAddUp(t) && Extends(s, t)
    requires c !in s.enqueues && c in t.enqueues && t.enqueues[c].Lost?
    ensures t.dropped >= s.dropped + 1
  {
    var earlier, all := Holders(s.enqueues, IsLost), Holders(t.enqueues, IsLost);
    assert c !in earlier && earlier + {c} <= all;
    assert all == (earlier + {c}) + (all - (earlier + {c}));
    assert |all| >= |earlier + {c}| == |earlier| + 1;
  }

  // ---- A recorded failure ----

  /** Required delivery has failed and the call can only be stopped early or turned away. */
  ghost predicate Stops(s: State, c: CallId, f: Failure) {
    && s.delivery.Required? && s.remote.firstFailure == Some(f) && Event(c) !in s.remote.channel
    && (c in s.enqueues ==>
          s.enqueues[c] in {Entered, Admitted, TurnedAway, Lost(Closed), StoppedEarly(f)})
  }

  lemma StepStops(s: State, a: Action, c: CallId, f: Failure)
    requires Stops(s, c, f)
    ensures Stops(Perform(s, a), c, f)
  {
    NothingReopens(s, a);
    if a == StepEnqueue(c) {
      if c in s.enqueues { hide Refusal; }
    } else {
      OtherStepsLeave(s, a, c);
      OtherStepsSendOthers(s, a, c);
      hide Perform;
    }
  }

  lemma {:induction false} RunsStop(s: State, actions: seq<Action>, c: CallId, f: Failure)
    requires Stops(s, c, f)
    ensures Stops(Execute(s, actions), c, f)
  {
    if actions != [] {
      var shorter := actions[..|actions| - 1];
      RunsStop(s, shorter, c, f);
      StepStops(Execute(s, shorter), actions[|actions| - 1], c, f);
    }
  }

  /** With required delivery, a call that begins after a failure was recorded never sends its event:
      it stops early with that failure, unless the sink was closed first. */
  lemma {:induction false} FailureStopsLaterCalls(capacity: nat, before: seq<Action>, after: seq<Action>,
                                                  c: CallId, f: Failure)
    requires var s := Execute(Spawn(capacity, Required), before);
      s.remote.firstFailure == Some(f) && c !in s.enqueues
    requires var t := Execute(Execute(Spawn(capacity, Required), before), after);
      c in t.enqueues && IsFinished(t.enqueues[c])
    ensures var t := Execute(Execute(Spawn(capacity, Required), before), after);
      t.enqueues[c] in {StoppedEarly(f), Lost(Closed)} && Event(c) !in t.remote.channel
  {
    var s := Execute(Spawn(capacity, Required), before);
    RunsKeepPlaced(capacity, Required, before, c);
    SpawnMeetsInv(capacity, Required);
    RunsExtend(Spawn(capacity, Required), before);
    RunsStop(s, after, c, f);
  }

  // ---- Every outcome had its cause ----

  /** Where a call is heading once the deciding step is made. */
  function Destiny(e: Enqueue): Enqueue {
    match e
    case TurnedAway => Lost(Closed)
    case Refused(cause) => Lost(cause)
    case TakenBack(cause) => Lost(cause)
    case _ => e
  }

  predicate Decided(e: Enqueue) {
    e.TurnedAway? || e.Refused? || e.TakenBack? || IsFinished(e)
  }

  /** How many messages wait in the channel. */
  function Queued(r: Remote): int {
    |r.channel| - r.taken
  }

  /** The call is at the step that decides, and the sink's state decides for this outcome. */
  ghost predicate Decides(s: State, c: CallId, e: Enqueue) {
    && c in s.enqueues
    && match e
       case Lost(Closed) => s.enqueues[c].Entered? && s.closed
       case Lost(Full) => s.enqueues[c].Counted? && !s.remote.worker.Gone? && Queued(s.remote) == s.remote.capacity
       case Lost(Disconnected) => s.enqueues[c].Counted? && s.remote.worker.Gone?
       case Sent => s.enqueues[c].Counted? && !s.remote.worker.Gone? && Queued(s.remote) < s.remote.capacity
       case StoppedEarly(f) =>
         s.enqueues[c].Admitted? && s.delivery.Required? && s.remote.firstFailure == Some(f)
       case SenderGone => s.enqueues[c].Cleared? && s.senderTaken
       case _ => false
  }

  lemma QueueIsBounded(s: State)
    requires Inv(s)
    ensures Queued(s.remote) <= s.remote.capacity
  {
  }

  lemma DecidedStays(s: State, c: CallId)
    requires c in s.enqueues && Decided(s.enqueues[c])
    ensures var t := StepOfEnqueue(s, c);
      c in t.enqueues && Decided(t.enqueues[c]) && Destiny(t.enqueues[c]) == Destiny(s.enqueues[c])
  {
    hide Refusal, Append;
  }

  lemma DecidingStep(s: State, c: CallId)
    requires Queued(s.remote) <= s.remote.capacity && c in s.enqueues && !Decided(s.enqueues[c])
    ensures var t := StepOfEnqueue(s, c);
      c in t.enqueues && (Decided(t.enqueues[c]) ==> Decides(s, c, Destiny(t.enqueues[c])))
  {
    if !s.enqueues[c].Counted? { hide Refusal, Append; }
  }

  /** Every call that ended, or is bound to end, in some way was decided at a moment of the run when the
      sink was in the state that way demands: closed, full to its capacity, without a receiver, with
      room, failed before under required delivery, or with its sender taken. */
  lemma {:induction false} OutcomeHadACause(capacity: nat, delivery: Delivery, actions: seq<Action>, c: CallId)
    returns (n: nat)
    requires var s := Execute(Spawn(capacity, delivery), actions); c in s.enqueues && Decided(s.enqueues[c])
    ensures n < |actions| && actions[n] == StepEnqueue(c)
    ensures Decides(Execute(Spawn(capacity, delivery), actions[..n]), c,
                    Destiny(Execute(Spawn(capacity, delivery), actions).enqueues[c]))
    decreases |actions|
  {
    hide Perform, Decided, Decides;
    var start := Spawn(capacity, delivery);
    n := |actions| - 1;
    var s := Execute(start, actions[..n]);
    SpawnMeetsInv(capacity, delivery);
    RunsKeepInv(start, actions[..n]);
    var own := LastStepDecides(s, actions[n], c);
    if !own {
      n := OutcomeHadACause(capacity, delivery, actions[..n], c);
      assert actions[..|actions| - 1][..n] == actions[..n];
    }
  }

  lemma LastStepDecides(s: State, a: Action, c: CallId) returns (own: bool)
    requires Inv(s) && c in Perform(s, a).enqueues && Decided(Perform(s, a).enqueues[c])
    ensures own ==> a == StepEnqueue(c) && Decides(s, c, Destiny(Perform(s, a).enqueues[c]))
    ensures !own ==>
      && c in s.enqueues && Decided(s.enqueues[c])
      && Destiny(s.enqueues[c]) == Destiny(Perform(s, a).enqueues[c])
  {
    assert !Decided(Entered);
    hide Decides, Inv, Decided, Destiny;
    if a == StepEnqueue(c) {
      hide StepOfEnqueue;
      if c in s.enqueues {
        QueueIsBounded(s);
        if Decided(s.enqueues[c]) { DecidedStays(s, c); } else { DecidingStep(s, c); }
      }
      own := c in s.enqueues && !Decided(s.enqueues[c]);
    } else {
      OtherStepsLeave(s, a, c);
      hide Perform;
      own := false;
    }
  }

  // ---- Who closed the sink ----

  ghost predicate ClosedForAReason(s: State, actions: seq<Action>) {
    && (s.closed ==> DropSink in actions || exists k :: BeginControl(k, true) in actions)
    && (forall k <- s.controls | s.controls[k] == Asking(true) :: BeginControl(k, true) in actions)
  }

  lemma StepClosesForAReason(s: State, actions: seq<Action>, a: Action)
    requires ClosedForAReason(s, actions)
    ensures ClosedForAReason(Perform(s, a), actions + [a])
  {
    var t, all := Perform(s, a), actions + [a];
    assert a in all && forall b <- actions :: b in all;
    ClosingStep(s, a);
    forall k <- t.controls | t.controls[k] == Asking(true) ensures BeginControl(k, true) in all {
      AskingStep(s, a, k);
    }
    hide Perform;
    if t.closed && !s.closed && a.StepControl? {
      assert BeginControl(a.call, true) in all;
    }
  }

  lemma ClosingStep(s: State, a: Action)
    ensures Perform(s, a).closed && !s.closed ==>
      a.DropSink? || (a.StepControl? && a.call in s.controls && s.controls[a.call] == Asking(true))
  {
    hide SendersGone, Quiet, StepOfControl, StepOfEnqueue, StepOfWorker;
    if a.StepEnqueue? && a.call in s.enqueues { OwnStepKeepsClosed(s, a.call); }
    if a.StepControl? && a.call in s.controls { ControlStepLeavesEnqueues(s, a.call); }
  }

  lemma OwnStepKeepsClosed(s: State, c: CallId)
    requires c in s.enqueues
    ensures StepOfEnqueue(s, c).closed == s.closed && StepOfEnqueue(s, c).senderTaken == s.senderTaken
  {
    hide Refusal, Append;
  }

  lemma AskingStep(s: State, a: Action, k: CallId)
    requires k in Perform(s, a).controls && Perform(s, a).controls[k] == Asking(true)
    ensures (k in s.controls && s.controls[k] == Asking(true)) || a == BeginControl(k, true)
  {
    hide SendersGone, Quiet, StepOfEnqueue, StepOfWorker, Refusal, Append;
    if a.StepEnqueue? && a.call in s.enqueues { SendIsAppended(s, a.call); }
  }

  /** The sink is closed only by a shutdown that was called or by dropping it; so a loss as closed means
      that one of them had happened. */
  lemma {:induction false} ClosedByShutdownOrDrop(capacity: nat, delivery: Delivery, actions: seq<Action>)
    ensures ClosedForAReason(Execute(Spawn(capacity, delivery), actions), actions)
  {
    if actions != [] {
      var shorter := actions[..|actions| - 1];
      ClosedByShutdownOrDrop(capacity, delivery, shorter);
      StepClosesForAReason(Execute(Spawn(capacity, delivery), shorter), shorter, actions[|actions| - 1]);
      assert actions == shorter + [actions[|actions| - 1]];
    }
  }

  // ---- What a flush or shutdown does to the sink ----

  /** A shutdown on its way: the sink is closed from its first step on, and its sender is taken by its
      last. One that finds the sink closed leaves it to the first. */
  ghost predicate ShutsDown(s: State, k: CallId) {
    k in s.controls && match s.controls[k]
      case Asking(shutdown) => shutdown
      case Fetching(shutdown) => shutdown && s.closed
      case Offering(shutdown) => shutdown && s.closed
      case Waiting(shutdown) => shutdown && s.closed
      case Closing(_) => s.closed
      case Returned(answer) => s.closed && (answer.Ignored? || s.senderTaken)
  }

  lemma OwnStepShutsDown(s: State, k: CallId)
    requires ShutsDown(s, k)
    ensures ShutsDown(StepOfControl(s, k), k)
  {
    hide Append;
  }

  lemma OtherStepsLeaveControl(s: State, a: Action, k: CallId)
    requires k in s.controls && a != StepControl(k) && a != GiveUp(k)
    ensures var t := Perform(s, a);
      && k in t.controls && t.controls[k] == s.controls[k]
      && (s.closed ==> t.closed) && (s.senderTaken ==> t.senderTaken)
  {
    hide SendersGone, Quiet, StepOfEnqueue, StepOfWorker, Refusal, Append;
    if a.StepEnqueue? && a.call in s.enqueues {
      SendIsAppended(s, a.call);
      OwnStepKeepsClosed(s, a.call);
    }
  }

  lemma StepShutsDown(s: State, a: Action, k: CallId)
    requires ShutsDown(s, k)
    ensures ShutsDown(Perform(s, a), k)
  {
    if a == StepControl(k) {
      hide StepOfControl;
      OwnStepShutsDown(s, k);
    } else if a != GiveUp(k) {
      OtherStepsLeaveControl(s, a, k);
      hide Perform;
    }
  }

  /** Once a shutdown has returned, whatever it answered, the sink is closed; and unless an earlier one
      was under way its sender is gone, so nothing enters the channel any more. */
  lemma {:induction false} ShutdownCloses(s: State, actions: seq<Action>, k: CallId)
    requires k in s.controls && s.controls[k] == Asking(true)
    ensures ShutsDown(Execute(s, actions), k)
  {
    if actions == [] {
    } else {
      var shorter := actions[..|actions| - 1];
      ShutdownCloses(s, shorter, k);
      StepShutsDown(Execute(s, shorter), actions[|actions| - 1], k);
    }
  }

  /** A call made on a closed sink has been asked or has its answer: a flush fails as already shut down,
      a second shutdown succeeds at once. */
  ghost predicate AnswersAtOnce(s: State, k: CallId, shutdown: bool) {
    && s.closed && k in s.controls
    && s.controls[k] in {Asking(shutdown), Returned(if shutdown then Ignored else AlreadyShutDown)}
  }

  lemma StepAnswersAtOnce(s: State, a: Action, k: CallId, shutdown: bool)
    requires AnswersAtOnce(s, k, shutdown)
    ensures AnswersAtOnce(Perform(s, a), k, shutdown)
  {
    if a == StepControl(k) {
      hide Refusal;
    } else if a != GiveUp(k) {
      OtherStepsLeaveControl(s, a, k);
      hide Perform;
    }
  }

  lemma {:induction false} ClosedSinkAnswersAtOnce(s: State, actions: seq<Action>, k: CallId, shutdown: bool)
    requires s.closed && k in s.controls && s.controls[k] == Asking(shutdown)
    ensures AnswersAtOnce(Execute(s, actions), k, shutdown)
  {
    if actions != [] {
      var shorter := actions[..|actions| - 1];
      ClosedSinkAnswersAtOnce(s, shorter, k, shutdown);
      StepAnswersAtOnce(Execute(s, shorter), actions[|actions| - 1], k, shutdown);
    }
  }

  /** What every answer without an acknowledgement says about the sink. */
  ghost predicate Grounded(s: State, actions: seq<Action>, k: CallId) {
    k in s.controls && (s.controls[k].Closing? || s.controls[k].Returned?) ==>
      match s.controls[k].answer
      case Acknowledged(_) => true
      case Ignored => s.closed
      case TimedOut => GiveUp(k) in actions
      case AlreadyShutDown => s.closed || s.senderTaken
      case WorkerGone => s.remote.worker.Gone?
  }

  lemma OwnStepIsGrounded(s: State, k: CallId)
    requires k in s.controls
    ensures var t := StepOfControl(s, k);
      && k in t.controls
      && ((t.controls[k].Closing? || t.controls[k].Returned?) ==>
            if s.controls[k].Closing? || s.controls[k].Returned? then t.controls[k].answer == s.controls[k].answer
            else match t.controls[k].answer
                 case Acknowledged(_) => true
                 case Ignored => s.closed
                 case TimedOut => false
                 case AlreadyShutDown => s.closed || s.senderTaken
                 case WorkerGone => s.remote.worker.Gone?)
      && (s.closed ==> t.closed) && (s.senderTaken ==> t.senderTaken)
  {
    hide Append;
  }

  lemma StepIsGrounded(s: State, actions: seq<Action>, a: Action, k: CallId)
    requires Grounded(s, actions, k)
    ensures Grounded(Perform(s, a), actions + [a], k)
  {
    assert forall b <- actions :: b in actions + [a];
    assert a in actions + [a];
    NothingReopens(s, a);
    if k !in s.controls {
      NewControlAsks(s, a, k);
      hide Perform;
    } else if a == StepControl(k) {
      OwnStepIsGrounded(s, k);
      hide StepOfControl;
    } else if a == GiveUp(k) {
      hide StepOfControl;
    } else {
      OtherStepsLeaveControl(s, a, k);
      hide Perform;
    }
  }

  lemma NewControlAsks(s: State, a: Action, k: CallId)
    requires k !in s.controls
    ensures k in Perform(s, a).controls ==> Perform(s, a).controls[k].Asking?
  {
    hide SendersGone, Quiet, StepOfEnqueue, StepOfWorker, Refusal, Append;
    if a.StepEnqueue? && a.call in s.enqueues { SendIsAppended(s, a.call); }
  }

  /** A call answers `WorkerGone` only without a receiver, `AlreadyShutDown` or `Ignored` only on a sink
      that was shut down, and times out only by giving up. */
  lemma {:induction false} AnswersAreGrounded(capacity: nat, delivery: Delivery, actions: seq<Action>, k: CallId)
    ensures Grounded(Execute(Spawn(capacity, delivery), actions), actions, k)
  {
    if actions != [] {
      var shorter := actions[..|actions| - 1];
      AnswersAreGrounded(capacity, delivery, shorter, k);
      StepIsGrounded(Execute(Spawn(capacity, delivery), shorter), shorter, actions[|actions| - 1], k);
      assert actions == shorter + [actions[|actions| - 1]];
    }
  }

  // ---- What the worker does with one message ----

  /** Some steps of the worker, with the transport behaving in one way. */
  function WorkerSteps(r: Remote, outcome: Outcome, sendersGone: bool, n: nat): Remote {
    if n == 0 then r else StepOfWorker(WorkerSteps(r, outcome, sendersGone, n - 1), outcome, sendersGone)
  }

  /** An event is taken and handled once: delivered, or counted as a failure and kept if it is the
      first; a panic takes the worker and its receiver away with the event unfinished. */
  lemma EventIsFinished(r: Remote, f: Failure, sendersGone: bool)
    requires r.worker.Receiving? && r.taken < |r.channel| && r.channel[r.taken].Event?
    ensures WorkerSteps(r, Delivers, sendersGone, 3)
         == r.(taken := r.taken + 1, results := r.results + [None], handled := r.handled + 1)
    ensures WorkerSteps(r, Fails(f), sendersGone, 5)
         == r.(taken := r.taken + 1, results := r.results + [Some(f)], handled := r.handled + 1,
               failures := r.failures + 1,
               firstFailure := if r.firstFailure.None? then Some(f) else r.firstFailure)
    ensures WorkerSteps(r, Panics, sendersGone, 4)
         == r.(taken := r.taken + 1, workerExited := true, worker := Gone)
  {
    DeliveryIsFinished(r, sendersGone);
    FailureIsFinished(r, f, sendersGone);
    PanicEndsTheWorker(r, sendersGone);
  }

  lemma DeliveryIsFinished(r: Remote, sendersGone: bool)
    requires r.worker.Receiving? && r.taken < |r.channel| && r.channel[r.taken].Event?
    ensures WorkerSteps(r, Delivers, sendersGone, 3)
         == r.(taken := r.taken + 1, results := r.results + [None], handled := r.handled + 1)
  {
    var took := r.(taken := r.taken + 1, worker := Transmitting);
    assert WorkerSteps(r, Delivers, sendersGone, 1) == took;
    var sent := took.(worker := Transmitted(None), results := r.results + [None]);
    assert WorkerSteps(r, Delivers, sendersGone, 2) == sent;
  }

  lemma FailureIsFinished(r: Remote, f: Failure, sendersGone: bool)
    requires r.worker.Receiving? && r.taken < |r.channel| && r.channel[r.taken].Event?
    ensures WorkerSteps(r, Fails(f), sendersGone, 5)
         == r.(taken := r.taken + 1, results := r.results + [Some(f)], handled := r.handled + 1,
               failures := r.failures + 1,
               firstFailure := if r.firstFailure.None? then Some(f) else r.firstFailure)
  {
    var o := Fails(f);
    var took := r.(taken := r.taken + 1, worker := Transmitting);
    assert WorkerSteps(r, o, sendersGone, 1) == took;
    var sent := took.(worker := Transmitted(Some(f)), results := r.results + [Some(f)]);
    assert WorkerSteps(r, o, sendersGone, 2) == sent;
    var handled := sent.(worker := CountingFailure(f), handled := r.handled + 1);
    assert WorkerSteps(r, o, sendersGone, 3) == handled;
    var counted := handled.(worker := RecordingFailure(f), failures := r.failures + 1);
    assert WorkerSteps(r, o, sendersGone, 4) == counted;
  }

  lemma PanicEndsTheWorker(r: Remote, sendersGone: bool)
    requires r.worker.Receiving? && r.taken < |r.channel| && r.channel[r.taken].Event?
    ensures WorkerSteps(r, Panics, sendersGone, 4)
         == r.(taken := r.taken + 1, workerExited := true, worker := Gone)
  {
    var took := r.(taken := r.taken + 1, worker := Transmitting);
    assert WorkerSteps(r, Panics, sendersGone, 1) == took;
    assert WorkerSteps(r, Panics, sendersGone, 2) == took.(worker := Leaving);
    assert WorkerSteps(r, Panics, sendersGone, 3) == took.(worker := Marked, workerExited := true);
  }

  /** A flush is answered with the first failure so far and the worker goes on; a shutdown is answered
      the same way and ends it. */
  lemma RequestIsAnswered(r: Remote, outcome: Outcome, sendersGone: bool)
    requires r.worker.Receiving? && r.taken < |r.channel| && !r.channel[r.taken].Event?
    ensures var k := r.channel[r.taken].call;
            var answered := r.(taken := r.taken + 1, acknowledgements := r.acknowledgements[k := r.firstFailure]);
      && (r.channel[r.taken].Flush? ==> WorkerSteps(r, outcome, sendersGone, 3) == answered)
      && (r.channel[r.taken].Shutdown? ==>
            WorkerSteps(r, outcome, sendersGone, 5) == answered.(workerExited := true, worker := Gone))
  {
    var k, last := r.channel[r.taken].call, r.channel[r.taken].Shutdown?;
    var took := r.(taken := r.taken + 1, worker := Answering(k, last));
    assert WorkerSteps(r, outcome, sendersGone, 1) == took;
    var looked := took.(worker := Acknowledging(k, last, r.firstFailure));
    assert WorkerSteps(r, outcome, sendersGone, 2) == looked;
    var answered := looked.(worker := if last then Leaving else Receiving,
                            acknowledgements := r.acknowledgements[k := r.firstFailure]);
    assert WorkerSteps(r, outcome, sendersGone, 3) == answered;
    if last {
      assert WorkerSteps(r, outcome, sendersGone, 4) == answered.(worker := Marked, workerExited := true);
    }
  }

  /** With nothing queued the worker waits, and leaves once every sender is gone. */
  lemma IdleWorker(r: Remote, outcome: Outcome)
    requires r.worker.Receiving? && r.taken == |r.channel|
    ensures WorkerSteps(r, outcome, false, 1) == r
    ensures WorkerSteps(r, outcome, true, 3) == r.(workerExited := true, worker := Gone)
  {
    assert WorkerSteps(r, outcome, true, 1) == r.(worker := Leaving);
    assert WorkerSteps(r, outcome, true, 2) == r.(worker := Marked, workerExited := true);
  }

  /** The report's second number: between messages, and after the worker's end, the failures counted
      are the failures of all results. */
  lemma FailureCountIsExact(capacity: nat, delivery: Delivery, actions: seq<Action>)
    ensures var r := Execute(Spawn(capacity, delivery), actions).remote;
      r.worker.Receiving? || Stopped(r.worker) ==>
        r.failures == Failures(r.results) && r.firstFailure == FirstFailure(r.results)
  {
    SpawnMeetsInv(capacity, delivery);
    RunsKeepInv(Spawn(capacity, delivery), actions);
  }

  // ---- Nothing behind a shutdown ----

  /** A shutdown the worker took is the last message it took, and it is on its way out. */
  ghost predicate EndsAtShutdown(r: Remote) {
    r.taken <= |r.channel| && forall i: nat | i < r.taken && r.channel[i].Shutdown? :: IsLastTaken(r, i)
  }

  predicate IsLastTaken(r: Remote, i: nat) {
    && r.taken == i + 1
    && (Stopped(r.worker) || (r.worker.Answering? && r.worker.last) || (r.worker.Acknowledging? && r.worker.last))
  }

  lemma WorkerStepEnds(r: Remote, outcome: Outcome, sendersGone: bool)
    requires EndsAtShutdown(r)
    ensures EndsAtShutdown(StepOfWorker(r, outcome, sendersGone))
  {
    var t := StepOfWorker(r, outcome, sendersGone);
    if r.worker.Receiving? && r.taken < |r.channel| {
      forall i: nat | i < r.taken ensures !r.channel[i].Shutdown? {
        assert !IsLastTaken(r, i);
      }
      assert r.channel[r.taken].Shutdown? ==> IsLastTaken(t, r.taken);
    } else {
      WorkerOnlyMovesOn(r, outcome, sendersGone);
      hide StepOfWorker;
      forall i: nat | i < t.taken && t.channel[i].Shutdown? ensures IsLastTaken(t, i) {
        assert IsLastTaken(r, i);
      }
    }
  }

  lemma WorkerOnlyMovesOn(r: Remote, outcome: Outcome, sendersGone: bool)
    requires !r.worker.Receiving? || r.taken >= |r.channel|
    ensures var t := StepOfWorker(r, outcome, sendersGone);
      t.taken == r.taken && t.channel == r.channel && forall i | IsLastTaken(r, i) :: IsLastTaken(t, i)
  {
  }

  lemma StepEnds(s: State, a: Action)
    requires EndsAtShutdown(s.remote)
    ensures EndsAtShutdown(Perform(s, a).remote)
  {
    var t := Perform(s, a).remote;
    match a
    case StepWorker(outcome) =>
      hide StepOfWorker;
      WorkerStepEnds(s.remote, outcome, SendersGone(s));
    case StepEnqueue(c) =>
      if c in s.enqueues { OneCallOnlyAppends(s, c); AppendingEnds(s.remote, t); }
    case StepControl(k) =>
      if k in s.controls {
        ControlStepKeepsWorker(s, k);
        ControlStepAppends(s, k);
        hide StepOfControl;
        AppendingEnds(s.remote, t);
      }
    case _ =>
  }

  lemma AppendingEnds(r: Remote, t: Remote)
    requires EndsAtShutdown(r) && r.channel <= t.channel && t == r.(channel := t.channel)
    ensures EndsAtShutdown(t)
  {
    forall i: nat | i < t.taken && t.channel[i].Shutdown? ensures IsLastTaken(t, i) {
      assert r.channel[i] == t.channel[i];
      assert IsLastTaken(r, i);
    }
  }

  lemma {:induction false} RunsEnd(capacity: nat, delivery: Delivery, actions: seq<Action>)
    ensures EndsAtShutdown(Execute(Spawn(capacity, delivery), actions).remote)
  {
    if actions != [] {
      var shorter := actions[..|actions| - 1];
      RunsEnd(capacity, delivery, shorter);
      StepEnds(Execute(Spawn(capacity, delivery), shorter), actions[|actions| - 1]);
    }
  }

  /** No event behind a shutdown the worker took is ever attempted. */
  lemma NothingBehindShutdown(capacity: nat, delivery: Delivery, actions: seq<Action>, i: nat)
    requires var r := Execute(Spawn(capacity, delivery), actions).remote;
      i < r.taken && i < |r.channel| && r.channel[i].Shutdown?
    ensures var r := Execute(Spawn(capacity, delivery), actions).remote;
      r.taken == i + 1 && |r.results| <= Events(r.channel[..i])
  {
    hide Execute;
    RunsEnd(capacity, delivery, actions);
    SpawnMeetsInv(capacity, delivery);
    RunsKeepInv(Spawn(capacity, delivery), actions);
    var r := Execute(Spawn(capacity, delivery), actions).remote;
    assert IsLastTaken(r, i);
    assert r.channel[..i + 1] == r.channel[..i] + [r.channel[i]];
    EventsOfOneMore(r.channel[..i], r.channel[i]);
  }
}

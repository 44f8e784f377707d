/** The progress record: a running count shared by many workers, and the two throttles on publishing
    it. A step is one atomic operation or one stretch under the lock; instants are milliseconds of
    the monotonic clock. */
module Recorder {
  import opened Wrappers

  const COUNT_TRIGGER: nat := 256
  const WRITE_INTERVAL: nat := 2_000
  const NO_PHASE: nat := 0

  datatype Write = PhaseWrite(step: nat) | TickWrite(step: nat, count: nat, stamp: nat)

  /** What all workers share; `writes` is what was published, oldest first. */
  datatype Record = Record(phase: nat, count: nat, lastWrite: Option<nat>, writes: seq<Write>)

  const BLANK := Record(NO_PHASE, 0, None, [])

  /** The cheap half of the throttle: the remainder of the new total against what was added. */
  predicate Wakes(amount: nat, total: nat) {
    amount > 0 && total % COUNT_TRIGGER < amount
  }

  predicate TooSoon(lastWrite: Option<nat>, now: nat) {
    lastWrite.Some? && (if now < lastWrite.value then 0 else now - lastWrite.value) < WRITE_INTERVAL
  }

  /** What a woken worker does while it holds the lock. */
  function Ticked(r: Record, step: nat, total: nat, now: nat): Record {
    if TooSoon(r.lastWrite, now) then r
    else r.(writes := r.writes + [TickWrite(step, total, now)], lastWrite := Some(now))
  }

  // ---- The two throttles ----

  /** Publications driven by counting are at least the interval apart. */
  ghost predicate Throttled(writes: seq<Write>) {
    forall i, j | 0 <= i < j < |writes| && writes[i].TickWrite? && writes[j].TickWrite? ::
      writes[j].stamp >= writes[i].stamp + WRITE_INTERVAL
  }

  ghost predicate StampedBy(writes: seq<Write>, lastWrite: Option<nat>) {
    forall i | 0 <= i < |writes| && writes[i].TickWrite? ::
      lastWrite.Some? && writes[i].stamp <= lastWrite.value
  }

  /** Nothing is published for a phase that does not exist. */
  ghost predicate InSomePhase(writes: seq<Write>) {
    forall w <- writes :: w.step != NO_PHASE
  }

  lemma TickKeepsThrottle(r: Record, step: nat, total: nat, now: nat)
    requires Throttled(r.writes) && StampedBy(r.writes, r.lastWrite)
    requires r.lastWrite.Some? ==> r.lastWrite.value <= now
    ensures var t := Ticked(r, step, total, now);
            Throttled(t.writes) && StampedBy(t.writes, t.lastWrite)
  {
    var t := Ticked(r, step, total, now);
    assert forall i | 0 <= i < |r.writes| :: t.writes[i] == r.writes[i];
  }

  lemma PhaseWriteKeepsThrottle(r: Record, step: nat)
    requires Throttled(r.writes) && StampedBy(r.writes, r.lastWrite) && InSomePhase(r.writes) && step != NO_PHASE
    ensures var writes := r.writes + [PhaseWrite(step)];
            Throttled(writes) && StampedBy(writes, r.lastWrite) && InSomePhase(writes)
  {
    var writes := r.writes + [PhaseWrite(step)];
    assert forall i | 0 <= i < |r.writes| :: writes[i] == r.writes[i];
  }

  /** A multiple of the trigger lies after the one count and not after the other. */
  ghost predicate PassesMultiple(before: nat, after: nat) {
    exists k: nat :: before < k * 256 <= after
  }

  /** The remainder test finds exactly the additions that pass a multiple of the trigger. */
  lemma WakesAtMultiples(before: nat, after: nat)
    requires before < after
    ensures Wakes(after - before, after) <==> PassesMultiple(before, after)
  {
    var k := after / COUNT_TRIGGER;
    assert after == k * COUNT_TRIGGER + after % COUNT_TRIGGER;
    if Wakes(after - before, after) {
      assert before < k * COUNT_TRIGGER <= after;
    }
    forall j: nat | before < j * COUNT_TRIGGER <= after
      ensures Wakes(after - before, after)
    {
      assert j <= k;
    }
  }

  class ProgressRecorder {
    const phases: seq<string>
    var phase: nat
    var count: nat
    var lastWrite: Option<nat>
    ghost var writes: seq<Write>

    constructor (phases: seq<string>)
      ensures Valid() && View() == BLANK && this.phases == phases
    {
      this.phases := phases;
      phase, count, lastWrite, writes := NO_PHASE, 0, None, [];
    }

    ghost function View(): Record
      reads this
    {
      Record(phase, count, lastWrite, writes)
    }

    /** Publications are throttled and belong to a phase; the phase is one of this operation's. */
    ghost predicate Valid()
      reads this
    {
      && phase <= |phases|
      && Throttled(writes) && StampedBy(writes, lastWrite) && InSomePhase(writes)
    }

    /** Entering a phase publishes at once and starts the count again, unless it is the phase the
        record is in or no phase of this operation. The clock never goes back. */
    method Phase(id: string, now: nat)
      requires Valid() && (lastWrite.Some? ==> lastWrite.value <= now)
      modifies this
      ensures Valid()
      ensures id !in phases ==> View() == old(View())
      ensures id in phases ==> exists i | 0 <= i < |phases| && phases[i] == id && id !in phases[..i] ::
                View() == if old(phase) == i + 1 then old(View())
                          else Record(i + 1, 0, Some(now), old(writes) + [PhaseWrite(i + 1)])
    {
      var i := 0;
      while i < |phases| && phases[i] != id
        invariant 0 <= i <= |phases| && id !in phases[..i]
      {
        i := i + 1;
      }
      if i == |phases| {
        return;
      }
      var step := i + 1;
      if phase == step {
        return;
      }
      PhaseWriteKeepsThrottle(View(), step);
      phase := step;
      count := 0;
      writes := writes + [PhaseWrite(step)];
      lastWrite := Some(now);
    }

    /** One call with nothing running beside it. It publishes exactly when the count passes a multiple
        of the trigger, a phase was entered and the interval since the last publication is over; then
        the publication carries the new count and the present instant. */
    method Add(amount: nat, now: nat)
      requires Valid()
      modifies this
      ensures Valid()
      ensures count == old(count) + amount && phase == old(phase)
      ensures var due := phase != NO_PHASE && PassesMultiple(old(count), count)
                && (old(lastWrite).Some? ==> old(lastWrite).value + 2_000 <= now);
        && writes == (if due then old(writes) + [TickWrite(phase, count, now)] else old(writes))
        && lastWrite == (if due then Some(now) else old(lastWrite))
    {
      if amount == 0 {
        return;
      }
      count := count + amount;
      var total := count;
      WakesAtMultiples(total - amount, total);
      if total % COUNT_TRIGGER >= amount {
        return;
      }
      var step := phase;
      if step == NO_PHASE {
        return;
      }
      if TooSoon(lastWrite, now) {
        return;
      }
      TickKeepsThrottle(View(), step, total, now);
      writes := writes + [TickWrite(step, total, now)];
      lastWrite := Some(now);
    }
  }

  // ---- Every interleaving ----

  /** A worker on its way: woken by a total, then with the phase it read. */
  datatype Worker =
    | Woken(total: nat)
    | Aimed(step: nat, total: nat)
    | Entering(step: nat)                // swapped the phase, count not reset yet
    | Publishing(step: nat)              // count reset, not published yet
    | Stamping(step: nat)                // published, `lastWrite` not set yet

  /** One addition to the count since it was last reset. */
  datatype Addition = Addition(before: nat, after: nat, woke: bool)

  datatype State = State(record: Record, clock: nat, workers: multiset<Worker>, additions: seq<Addition>)

  datatype Action =
    | Wait(time: nat)
    | Enter(step: nat)                   // the swap at the head of a phase change
    | Count(amount: nat)                 // the fetch-and-add at the head of a count
    | Proceed(worker: Worker)            // the next step of one worker

  const START := State(BLANK, 0, multiset{}, [])

  function Perform(s: State, a: Action): State {
    match a
    case Wait(time) => s.(clock := s.clock + time)
    case Enter(step) =>
      if step == NO_PHASE || s.record.phase == step then s
      else s.(record := s.record.(phase := step), workers := s.workers + multiset{Entering(step)})
    case Count(amount) =>
      if amount == 0 then s else
        var total := s.record.count + amount;
        s.(record := s.record.(count := total),
           workers := s.workers + if Wakes(amount, total) then multiset{Woken(total)} else multiset{},
           additions := s.additions + [Addition(s.record.count, total, Wakes(amount, total))])
    case Proceed(worker) =>
      if worker !in s.workers then s else Proceeded(s.(workers := s.workers - multiset{worker}), worker)
  }

  function Proceeded(s: State, worker: Worker): State {
    match worker
    case Woken(total) =>
      if s.record.phase == NO_PHASE then s
      else s.(workers := s.workers + multiset{Aimed(s.record.phase, total)})
    case Aimed(step, total) => s.(record := Ticked(s.record, step, total, s.clock))
    case Entering(step) =>
      s.(record := s.record.(count := 0), additions := [],
         workers := s.workers + multiset{Publishing(step)})
    case Publishing(step) =>
      s.(record := s.record.(writes := s.record.writes + [PhaseWrite(step)]),
         workers := s.workers + multiset{Stamping(step)})
    case Stamping(_) => s.(record := s.record.(lastWrite := Some(s.clock)))
  }

  function Execute(s: State, actions: seq<Action>): State {
    if actions == [] then s
    else Perform(Execute(s, actions[..|actions| - 1]), actions[|actions| - 1])
  }

  // ---- What every run keeps ----

  predicate Bound(w: Worker) {
    w.Woken? || w.step != NO_PHASE
  }

  predicate TileAt(additions: seq<Addition>, i: nat)
    requires i < |additions|
  {
    var a := additions[i];
    && a.before == (if i == 0 then 0 else additions[i - 1].after)
    && a.before < a.after && a.woke == Wakes(a.after - a.before, a.after)
  }

  /** The additions follow one another from nought to the count. */
  ghost predicate Tiled(additions: seq<Addition>, count: nat) {
    && count == (if additions == [] then 0 else additions[|additions| - 1].after)
    && (forall i: nat | i < |additions| :: TileAt(additions, i))
  }

  ghost predicate Inv(s: State) {
    && Throttled(s.record.writes) && StampedBy(s.record.writes, s.record.lastWrite)
    && InSomePhase(s.record.writes) && (forall w <- s.workers :: Bound(w))
    && (s.record.lastWrite.Some? ==> s.record.lastWrite.value <= s.clock)
    && Tiled(s.additions, s.record.count)
  }

  lemma CountKeepsTiles(additions: seq<Addition>, count: nat, amount: nat)
    requires Tiled(additions, count) && amount > 0
    ensures Tiled(additions + [Addition(count, count + amount, Wakes(amount, count + amount))], count + amount)
  {
    hide Wakes;
    var all := additions + [Addition(count, count + amount, Wakes(amount, count + amount))];
    forall i: nat | i < |all| ensures TileAt(all, i) {
      assert i < |additions| ==> TileAt(additions, i);
    }
  }

  lemma ProceedKeepsInv(s: State, worker: Worker)
    requires Inv(s) && Bound(worker)
    ensures Inv(Proceeded(s, worker))
  {
    hide Throttled, TooSoon, Wakes;
    match worker
    case Aimed(step, total) =>
      TickKeepsThrottle(s.record, step, total, s.clock);
    case Publishing(step) => PhaseWriteKeepsThrottle(s.record, step);
    case _ =>
  }

  lemma {:induction false} StepKeepsInv(s: State, a: Action)
    requires Inv(s)
    ensures Inv(Perform(s, a))
  {
    hide Throttled, Tiled, StampedBy, InSomePhase, Wakes;
    match a
    case Count(amount) =>
      if amount > 0 { CountKeepsTiles(s.additions, s.record.count, amount); }
    case Proceed(worker) =>
      if worker in s.workers { ProceedKeepsInv(s.(workers := s.workers - multiset{worker}), worker); }
    case _ =>
  }

  lemma {:induction false} RunsKeepInv(actions: seq<Action>)
    ensures Inv(Execute(START, actions))
  {
    if actions != [] {
      RunsKeepInv(actions[..|actions| - 1]);
      StepKeepsInv(Execute(START, actions[..|actions| - 1]), actions[|actions| - 1]);
    }
  }

  /** Any two publications driven by counting are at least the interval apart, however phases change
      and workers race, and none is for a phase nobody entered. */
  lemma {:induction false} TicksAreThrottled(actions: seq<Action>, i: nat, j: nat)
    requires i < j < |Execute(START, actions).record.writes|
    requires Execute(START, actions).record.writes[i].TickWrite?
    requires Execute(START, actions).record.writes[j].TickWrite?
    ensures var writes := Execute(START, actions).record.writes;
      writes[j].stamp >= writes[i].stamp + 2_000 && writes[i].step != NO_PHASE
  {
    RunsKeepInv(actions);
    assert Execute(START, actions).record.writes[i] in Execute(START, actions).record.writes;
  }

  predicate Covers(a: Addition, m: nat) {
    a.before < m <= a.after
  }

  lemma {:induction false} TilesAscend(additions: seq<Addition>, count: nat, i: nat, j: nat)
    requires Tiled(additions, count) && i < j < |additions|
    ensures additions[i].after <= additions[j].before
    decreases j
  {
    assert TileAt(additions, j) && TileAt(additions, j - 1);
    if i < j - 1 {
      TilesAscend(additions, count, i, j - 1);
    }
  }

  lemma {:induction false} TilesReach(additions: seq<Addition>, count: nat, m: nat) returns (i: nat)
    requires Tiled(additions, count) && 0 < m <= count
    ensures i < |additions| && Covers(additions[i], m)
  {
    i := |additions| - 1;
    while m <= additions[i].before
      invariant i < |additions| && m <= additions[i].after
      decreases i
    {
      assert TileAt(additions, i);
      i := i - 1;
    }
  }

  /** In every interleaving each multiple of the trigger up to the count is passed by exactly one
      addition since the reset, and that one woke its worker. */
  lemma {:induction false} EachMultipleWakesOnce(actions: seq<Action>, k: nat)
    requires 0 < k * 256 <= Execute(START, actions).record.count
    ensures var all := Execute(START, actions).additions;
      exists i | 0 <= i < |all| :: Covers(all[i], k * 256) && all[i].woke
        && forall j | 0 <= j < |all| && Covers(all[j], k * 256) :: j == i
  {
    RunsKeepInv(actions);
    var s := Execute(START, actions);
    var i := TilesReach(s.additions, s.record.count, k * COUNT_TRIGGER);
    var a := s.additions[i];
    assert TileAt(s.additions, i);
    assert a.before < k * COUNT_TRIGGER <= a.after;
    WakesAtMultiples(a.before, a.after);
    forall j | 0 <= j < |s.additions| && Covers(s.additions[j], k * COUNT_TRIGGER) ensures j == i {
      if i < j { TilesAscend(s.additions, s.record.count, i, j); }
      if j < i { TilesAscend(s.additions, s.record.count, j, i); }
    }
  }

  function WakeUps(additions: seq<Addition>): nat {
    if additions == [] then 0
    else WakeUps(additions[..|additions| - 1]) + if additions[|additions| - 1].woke then 1 else 0
  }

  lemma {:induction false} WakeUpsFitTiles(additions: seq<Addition>, count: nat)
    requires Tiled(additions, count)
    ensures WakeUps(additions) <= count / COUNT_TRIGGER
  {
    if additions != [] {
      var n := |additions| - 1;
      assert TileAt(additions, n);
      forall i: nat | i < n ensures TileAt(additions[..n], i) {
        assert TileAt(additions, i);
      }
      WakeUpsFitTiles(additions[..n], additions[n].before);
    }
  }

  /** The clock is read at most once per trigger's worth of counted items. */
  lemma {:induction false} ClockReadsAreRare(actions: seq<Action>)
    ensures WakeUps(Execute(START, actions).additions) <= Execute(START, actions).record.count / 256
  {
    RunsKeepInv(actions);
    WakeUpsFitTiles(Execute(START, actions).additions, Execute(START, actions).record.count);
  }

  // ---- What one call amounts to ----

  /** A woken worker publishes what it counted, for the phase it read and at the present instant, exactly
      when the interval since the last publication is over. */
  lemma PublicationIsDue(s: State, step: nat, total: nat)
    requires Aimed(step, total) in s.workers
    ensures var t := Perform(s, Proceed(Aimed(step, total)));
            var due := s.record.lastWrite.Some? ==> s.record.lastWrite.value + 2_000 <= s.clock;
      && t.record.phase == s.record.phase && t.record.count == s.record.count
      && t.record.writes == (if due then s.record.writes + [TickWrite(step, total, s.clock)] else s.record.writes)
      && t.record.lastWrite == (if due then Some(s.clock) else s.record.lastWrite)
      && t.workers == s.workers - multiset{Aimed(step, total)}
  {
  }

  /** The two steps that lead up to a publication. */
  lemma ReadyToPublish(s: State, amount: nat)
    requires s.workers == multiset{} && amount > 0
    ensures var total := s.record.count + amount;
            var ready := Perform(Perform(s, Count(amount)), Proceed(Woken(total)));
      && ready.record == s.record.(count := total) && ready.clock == s.clock
      && ready.workers == (if Wakes(amount, total) && s.record.phase != NO_PHASE
                           then multiset{Aimed(s.record.phase, total)} else multiset{})
  {
    hide Wakes;
    var total := s.record.count + amount;
    var counted := Perform(s, Count(amount));
    assert counted.workers == if Wakes(amount, total) then multiset{Woken(total)} else multiset{};
  }

  /** A count with nothing beside it is the call of `ProgressRecorder.Add`. */
  lemma UndisturbedCount(s: State, amount: nat)
    requires s.workers == multiset{} && amount > 0
    ensures var total := s.record.count + amount;
            var t := Execute(s, [Count(amount), Proceed(Woken(total)), Proceed(Aimed(s.record.phase, total))]);
            var due := s.record.phase != NO_PHASE && PassesMultiple(s.record.count, total)
              && (s.record.lastWrite.Some? ==> s.record.lastWrite.value + 2_000 <= s.clock);
      && t.record.phase == s.record.phase && t.record.count == total
      && t.record.writes
           == (if due then s.record.writes + [TickWrite(s.record.phase, total, s.clock)] else s.record.writes)
      && t.record.lastWrite == (if due then Some(s.clock) else s.record.lastWrite)
      && t.workers == multiset{}
  {
    hide Execute, Perform, Wakes, PassesMultiple;
    var total := s.record.count + amount;
    var aimed := Aimed(s.record.phase, total);
    WakesAtMultiples(s.record.count, total);
    ReadyToPublish(s, amount);
    ExecuteOfThree(s, Count(amount), Proceed(Woken(total)), Proceed(aimed));
    var ready := Perform(Perform(s, Count(amount)), Proceed(Woken(total)));
    assert total - s.record.count == amount;
    if Wakes(amount, total) && s.record.phase != NO_PHASE {
      PublicationIsDue(ready, s.record.phase, total);
    } else {
      NoOneProceeds(ready, aimed);
    }
  }

  lemma NoOneProceeds(s: State, worker: Worker)
    requires worker !in s.workers
    ensures Perform(s, Proceed(worker)) == s
  {
  }

  /** A phase change with nothing beside it is the call of `ProgressRecorder.Phase`. */
  lemma UndisturbedPhase(s: State, step: nat)
    requires s.workers == multiset{} && step != NO_PHASE
    ensures var t := Execute(Perform(s, Enter(step)),
                             [Proceed(Entering(step)), Proceed(Publishing(step)), Proceed(Stamping(step))]);
      if s.record.phase == step then t == s
      else t.record == Record(step, 0, Some(s.clock), s.record.writes + [PhaseWrite(step)]) && t.workers == multiset{}
  {
    var entered := Perform(s, Enter(step));
    ExecuteOfThree(entered, Proceed(Entering(step)), Proceed(Publishing(step)), Proceed(Stamping(step)));
    hide Execute;
    if s.record.phase != step {
      assert entered.workers == multiset{Entering(step)};
      var reset := Perform(entered, Proceed(Entering(step)));
      assert reset.workers == multiset{Publishing(step)};
      var published := Perform(reset, Proceed(Publishing(step)));
      assert published.workers == multiset{Stamping(step)};
    }
  }

  lemma ExecuteOfThree(s: State, a: Action, b: Action, c: Action)
    ensures Execute(s, [a, b, c]) == Perform(Perform(Perform(s, a), b), c)
  {
    hide Perform;
    assert [a, b, c][..2] == [a, b] && [a, b][..1] == [a] && [a][..0] == [];
    assert Execute(s, [a]) == Perform(s, a);
    assert Execute(s, [a, b]) == Perform(Perform(s, a), b);
  }
}

/** The progress ledger: active operations under one lock and the counters they feed. */
module Ledger {
  import opened Wrappers

  const U32_MAX: nat := 0xFFFF_FFFF

  datatype OperationKind = Upload | CreateDirectory | DeleteEntry | ScanLocal | ScanRemote

  predicate IsFile(kind: OperationKind) { kind.Upload? }

  datatype UpdateKind = AttemptStarted | AttemptReset | Advanced | Succeeded | Failed

  datatype ActiveOperation = ActiveOperation(
    kind: OperationKind,
    totalBytes: nat,
    attempt: nat,
    attemptBytes: nat)

  datatype OperationUpdate = OperationUpdate(id: nat, update: UpdateKind, operation: ActiveOperation)

  datatype ProgressError = OperationFinished | UnknownOperation

  /** Everything the lock and the counters hold. */
  datatype Books = Books(
    completedOperations: nat,
    failedOperations: nat,
    completedFiles: nat,
    failedFiles: nat,
    logicalBytes: nat,
    wireBytes: nat,
    active: map<nat, ActiveOperation>)

  const NEW_BOOKS := Books(0, 0, 0, 0, 0, 0, map[])

  function SubtractSaturating(counter: nat, value: nat): nat {
    if counter >= value then counter - value else 0
  }

  // ---- What each locked call does ----

  function Started(b: Books, id: nat, kind: OperationKind, totalBytes: nat): Books {
    b.(active := b.active[id := ActiveOperation(kind, totalBytes, 0, 0)])
  }

  /** Roll the attempt's bytes back and count a new attempt. */
  function AttemptBegun(b: Books, id: nat): Books {
    if id !in b.active then b else
      var op := b.active[id];
      b.(logicalBytes := SubtractSaturating(b.logicalBytes, op.attemptBytes),
         active := b.active[id :=
           op.(attemptBytes := 0, attempt := if op.attempt < U32_MAX then op.attempt + 1 else U32_MAX)])
  }

  /** Roll the attempt's bytes back. */
  function AttemptWasReset(b: Books, id: nat): Books {
    if id !in b.active then b else
      var op := b.active[id];
      b.(logicalBytes := SubtractSaturating(b.logicalBytes, op.attemptBytes),
         active := b.active[id := op.(attemptBytes := 0)])
  }

  /** Move on by at most what the operation still lacks. */
  function WasAdvanced(b: Books, id: nat, delta: nat): Books {
    if id !in b.active then b else
      var op := b.active[id];
      var available := SubtractSaturating(op.totalBytes, op.attemptBytes);
      var accepted := if delta < available then delta else available;
      b.(logicalBytes := b.logicalBytes + accepted,
         wireBytes := b.wireBytes + accepted,
         active := b.active[id := op.(attemptBytes := op.attemptBytes + accepted)])
  }

  function WasFinished(b: Books, id: nat, succeeded: bool): Books {
    if id !in b.active then b else
      var op := b.active[id];
      var files := if IsFile(op.kind) then 1 else 0;
      if succeeded then
        var remaining := SubtractSaturating(op.totalBytes, op.attemptBytes);
        b.(logicalBytes := b.logicalBytes + remaining,
           wireBytes := b.wireBytes + remaining,
           completedOperations := b.completedOperations + 1,
           completedFiles := b.completedFiles + files,
           active := b.active - {id})
      else
        b.(logicalBytes := SubtractSaturating(b.logicalBytes, op.attemptBytes),
           failedOperations := b.failedOperations + 1,
           failedFiles := b.failedFiles + files,
           active := b.active - {id})
  }

  // ---- Bytes of the operations in progress ----

  /** The attempt bytes of the active operations with ids below a bound. */
  ghost function ActiveBytes(active: map<nat, ActiveOperation>, bound: nat): nat {
    if bound == 0 then 0
    else ActiveBytes(active, bound - 1) + if bound - 1 in active then active[bound - 1].attemptBytes else 0
  }

  lemma {:induction false} BytesWithOne(active: map<nat, ActiveOperation>, id: nat, op: ActiveOperation, bound: nat)
    requires id < bound
    ensures ActiveBytes(active[id := op], bound) == ActiveBytes(active - {id}, bound) + op.attemptBytes
  {
    if id == bound - 1 {
      BytesElsewhere(active[id := op], active - {id}, id, bound - 1);
    } else {
      BytesWithOne(active, id, op, bound - 1);
    }
  }

  lemma {:induction false} BytesElsewhere(a: map<nat, ActiveOperation>, b: map<nat, ActiveOperation>, id: nat,
                                          bound: nat)
    requires bound <= id && a - {id} == b - {id}
    ensures ActiveBytes(a, bound) == ActiveBytes(b, bound)
  {
    if bound > 0 {
      BytesElsewhere(a, b, id, bound - 1);
      var k := bound - 1;
      assert k in a <==> k in a - {id};
      assert k in b <==> k in b - {id};
      assert k in a ==> a[k] == (a - {id})[k] == (b - {id})[k] == b[k];
    }
  }

  /** Every operation's bytes are among those of all. */
  lemma OneOfTheBytes(active: map<nat, ActiveOperation>, id: nat, bound: nat)
    requires id in active && id < bound
    ensures ActiveBytes(active, bound) == ActiveBytes(active - {id}, bound) + active[id].attemptBytes
  {
    BytesWithOne(active, id, active[id], bound);
    assert active[id := active[id]] == active;
  }

  lemma OneFewerActive(active: map<nat, ActiveOperation>, id: nat)
    requires id in active
    ensures |active| == |active - {id}| + 1
  {
    assert active.Keys == (active - {id}).Keys + {id};
    assert |active.Keys| == |active| && |(active - {id}).Keys| == |active - {id}|;
  }

  lemma NoBytes(bound: nat)
    ensures ActiveBytes(map[], bound) == 0
  {
  }

  // ---- Books that add up ----

  /** Ids in use were handed out, no attempt exceeds its total, every started operation is active,
      completed or failed, and both byte counters are exact: `succeeded` are the totals of what
      succeeded, `rolledBack` the bytes of attempts that were given up. */
  ghost predicate AddsUp(b: Books, nextId: nat, succeeded: nat, rolledBack: nat) {
    && nextId >= 1
    && (forall id <- b.active :: 1 <= id < nextId && b.active[id].attemptBytes <= b.active[id].totalBytes)
    && b.completedOperations + b.failedOperations + |b.active| == nextId - 1
    && b.logicalBytes == succeeded + ActiveBytes(b.active, nextId)
    && b.wireBytes == b.logicalBytes + rolledBack
  }

  /** Apart from the bytes, only the attempt of one operation has changed. */
  predicate OnlyAttemptMoves(b: Books, t: Books, id: nat) {
    && id in b.active && id in t.active
    && t == b.(logicalBytes := t.logicalBytes, wireBytes := t.wireBytes, active := b.active[id := t.active[id]])
    && t.active[id].kind == b.active[id].kind && t.active[id].totalBytes == b.active[id].totalBytes
  }

  /** The attempt is given up: exactly its bytes leave the logical count, and none the wire count. */
  predicate GivesAttemptUp(b: Books, t: Books, id: nat) {
    && OnlyAttemptMoves(b, t, id) && t.active[id].attemptBytes == 0
    && t.logicalBytes + b.active[id].attemptBytes == b.logicalBytes && t.wireBytes == b.wireBytes
  }

  /** The attempt number goes up by one, and stays at the counter's end. */
  predicate CountsAttempt(b: Books, t: Books, id: nat) {
    && id in b.active && id in t.active
    && (b.active[id].attempt < U32_MAX ==> t.active[id].attempt == b.active[id].attempt + 1)
    && (b.active[id].attempt >= U32_MAX ==> t.active[id].attempt == U32_MAX)
  }

  predicate KeepsAttempt(b: Books, t: Books, id: nat) {
    id in b.active && id in t.active && t.active[id].attempt == b.active[id].attempt
  }

  /** Part of the delta is accepted: all of it, or what completes the operation. Both byte counters
      grow by exactly what the attempt grows by. */
  predicate Accepts(b: Books, t: Books, id: nat, delta: nat) {
    && OnlyAttemptMoves(b, t, id) && KeepsAttempt(b, t, id)
    && var accepted := t.active[id].attemptBytes - b.active[id].attemptBytes;
       && 0 <= accepted <= delta
       && (accepted == delta || t.active[id].attemptBytes == t.active[id].totalBytes)
       && t.logicalBytes == b.logicalBytes + accepted && t.wireBytes == b.wireBytes + accepted
  }

  /** The operation leaves and counts once. A success brings the logical count to its whole total; a
      failure takes exactly its attempt out of it. */
  predicate Closes(b: Books, t: Books, id: nat, succeeded: bool) {
    && id in b.active && t.active == b.active - {id}
    && var op := b.active[id];
       && t.completedOperations == b.completedOperations + (if succeeded then 1 else 0)
       && t.failedOperations == b.failedOperations + (if succeeded then 0 else 1)
       && t.completedFiles == b.completedFiles + (if succeeded && op.kind == Upload then 1 else 0)
       && t.failedFiles == b.failedFiles + (if !succeeded && op.kind == Upload then 1 else 0)
       && t.logicalBytes + op.attemptBytes == b.logicalBytes + (if succeeded then op.totalBytes else 0)
       && t.wireBytes - b.wireBytes == if succeeded then op.totalBytes - op.attemptBytes else 0
  }

  lemma StartAddsUp(b: Books, nextId: nat, succeeded: nat, rolledBack: nat, kind: OperationKind, totalBytes: nat)
    requires AddsUp(b, nextId, succeeded, rolledBack)
    ensures nextId !in b.active
    ensures AddsUp(Started(b, nextId, kind, totalBytes), nextId + 1, succeeded, rolledBack)
  {
    var after := Started(b, nextId, kind, totalBytes).active;
    assert after - {nextId} == b.active;
    BytesElsewhere(b.active, after, nextId, nextId);
    OneFewerActive(after, nextId);
  }

  /** One operation's attempt moves from what it was to `op`; the other bytes stay. */
  lemma MovedBytes(b: Books, id: nat, op: ActiveOperation, nextId: nat)
    requires id in b.active && id < nextId
    ensures ActiveBytes(b.active[id := op], nextId) + b.active[id].attemptBytes
         == ActiveBytes(b.active, nextId) + op.attemptBytes
    ensures b.active[id].attemptBytes <= ActiveBytes(b.active, nextId)
    ensures |b.active[id := op]| == |b.active|
  {
    OneOfTheBytes(b.active, id, nextId);
    BytesWithOne(b.active, id, op, nextId);
    assert b.active[id := op].Keys == b.active.Keys;
  }

  /** Beginning an attempt gives the last one up and counts a new one, up to the counter's end. */
  lemma BeginAddsUp(b: Books, nextId: nat, succeeded: nat, rolledBack: nat, id: nat)
    requires AddsUp(b, nextId, succeeded, rolledBack) && id in b.active
    ensures var t := AttemptBegun(b, id);
      && GivesAttemptUp(b, t, id)
      && AddsUp(t, nextId, succeeded, rolledBack + b.active[id].attemptBytes)
      && CountsAttempt(b, t, id)
  {
    hide ActiveBytes;
    MovedBytes(b, id, AttemptBegun(b, id).active[id], nextId);
  }

  lemma ResetAddsUp(b: Books, nextId: nat, succeeded: nat, rolledBack: nat, id: nat)
    requires AddsUp(b, nextId, succeeded, rolledBack) && id in b.active
    ensures var t := AttemptWasReset(b, id);
      && GivesAttemptUp(b, t, id) && KeepsAttempt(b, t, id)
      && AddsUp(t, nextId, succeeded, rolledBack + b.active[id].attemptBytes)
  {
    hide ActiveBytes;
    MovedBytes(b, id, AttemptWasReset(b, id).active[id], nextId);
  }

  lemma AdvanceAddsUp(b: Books, nextId: nat, succeeded: nat, rolledBack: nat, id: nat, delta: nat)
    requires AddsUp(b, nextId, succeeded, rolledBack) && id in b.active
    ensures Accepts(b, WasAdvanced(b, id, delta), id, delta)
    ensures AddsUp(WasAdvanced(b, id, delta), nextId, succeeded, rolledBack)
  {
    hide ActiveBytes;
    MovedBytes(b, id, WasAdvanced(b, id, delta).active[id], nextId);
  }

  lemma FinishAddsUp(b: Books, nextId: nat, succeeded: nat, rolledBack: nat, id: nat, won: bool)
    requires AddsUp(b, nextId, succeeded, rolledBack) && id in b.active
    ensures Closes(b, WasFinished(b, id, won), id, won)
    ensures AddsUp(WasFinished(b, id, won), nextId,
                   succeeded + (if won then b.active[id].totalBytes else 0),
                   rolledBack + if won then 0 else b.active[id].attemptBytes)
  {
    hide ActiveBytes;
    OneOfTheBytes(b.active, id, nextId);
    OneFewerActive(b.active, id);
  }

  lemma AttemptIsWithinTotal(b: Books, nextId: nat, succeeded: nat, rolledBack: nat, id: nat)
    requires AddsUp(b, nextId, succeeded, rolledBack) && id in b.active
    ensures b.active[id].attemptBytes <= b.active[id].totalBytes
  {
  }

  class ProgressTracker {
    var nextId: nat
    var completedOperations: nat
    var failedOperations: nat
    var completedFiles: nat
    var failedFiles: nat
    var logicalBytes: nat
    var wireBytes: nat
    var active: map<nat, ActiveOperation>
    ghost var succeededBytes: nat   // the totals of the operations that succeeded
    ghost var rolledBackBytes: nat  // the bytes of attempts that were given up

    constructor ()
      ensures Valid() && View() == NEW_BOOKS && nextId == 1
      ensures completedOperations == failedOperations == completedFiles == failedFiles == 0
      ensures logicalBytes == wireBytes == 0 && active == map[]
      ensures succeededBytes == rolledBackBytes == 0
    {
      nextId, completedOperations, failedOperations, completedFiles, failedFiles := 1, 0, 0, 0, 0;
      logicalBytes, wireBytes, active := 0, 0, map[];
      succeededBytes, rolledBackBytes := 0, 0;
      new;
      NoBytes(nextId);
    }

    ghost function View(): Books
      reads this
    {
      Books(completedOperations, failedOperations, completedFiles, failedFiles, logicalBytes,
            wireBytes, active)
    }

    ghost predicate Valid()
      reads this
    {
      AddsUp(View(), nextId, succeededBytes, rolledBackBytes)
    }

    /** An id not in use becomes active; no byte and no counter moves. */
    method Start(kind: OperationKind, totalBytes: nat) returns (id: nat)
      requires Valid()
      modifies this
      ensures Valid() && id !in old(active) && id == old(nextId) && nextId == id + 1
      ensures View() == Started(old(View()), id, kind, totalBytes)
      ensures View() == old(View()).(active := old(active)[id := ActiveOperation(kind, totalBytes, 0, 0)])
      ensures succeededBytes == old(succeededBytes) && rolledBackBytes == old(rolledBackBytes)
    {
      StartAddsUp(View(), nextId, succeededBytes, rolledBackBytes, kind, totalBytes);
      hide AddsUp;
      id := nextId;
      nextId := nextId + 1;
      active := active[id := ActiveOperation(kind, totalBytes, 0, 0)];
    }

    method BeginAttempt(id: nat) returns (r: Result<OperationUpdate, ProgressError>)
      requires Valid()
      modifies this
      ensures Valid() && nextId == old(nextId) && succeededBytes == old(succeededBytes)
      ensures if id in old(active)
              then GivesAttemptUp(old(View()), View(), id) && CountsAttempt(old(View()), View(), id)
              else View() == old(View())
      ensures View() == AttemptBegun(old(View()), id)
      ensures r.Err? <==> id !in old(active)
      ensures r.Err? ==> r.error == UnknownOperation
      ensures r.Ok? ==> r.value.id == id && r.value.update == AttemptStarted && r.value.operation == active[id]
    {
      hide AddsUp, ActiveBytes, GivesAttemptUp, CountsAttempt, KeepsAttempt, Accepts;
      if id !in active {
        return Err(UnknownOperation);
      }
      BeginAddsUp(View(), nextId, succeededBytes, rolledBackBytes, id);
      var op := active[id];
      logicalBytes := SubtractSaturating(logicalBytes, op.attemptBytes);
      rolledBackBytes := rolledBackBytes + op.attemptBytes;
      op := op.(attemptBytes := 0,
                attempt := if op.attempt < U32_MAX then op.attempt + 1 else U32_MAX);
      active := active[id := op];
      return Ok(OperationUpdate(id, AttemptStarted, op));
    }

    method ResetAttempt(id: nat) returns (r: Result<OperationUpdate, ProgressError>)
      requires Valid()
      modifies this
      ensures Valid() && nextId == old(nextId) && succeededBytes == old(succeededBytes)
      ensures if id in old(active)
              then GivesAttemptUp(old(View()), View(), id) && KeepsAttempt(old(View()), View(), id)
              else View() == old(View())
      ensures View() == AttemptWasReset(old(View()), id)
      ensures r.Err? <==> id !in old(active)
      ensures r.Err? ==> r.error == UnknownOperation
      ensures r.Ok? ==> r.value.id == id && r.value.update == AttemptReset && r.value.operation == active[id]
    {
      hide AddsUp, ActiveBytes, GivesAttemptUp, CountsAttempt, KeepsAttempt, Accepts;
      if id !in active {
        return Err(UnknownOperation);
      }
      ResetAddsUp(View(), nextId, succeededBytes, rolledBackBytes, id);
      var op := active[id];
      logicalBytes := SubtractSaturating(logicalBytes, op.attemptBytes);
      rolledBackBytes := rolledBackBytes + op.attemptBytes;
      op := op.(attemptBytes := 0);
      active := active[id := op];
      return Ok(OperationUpdate(id, AttemptReset, op));
    }

    method Advance(id: nat, delta: nat) returns (r: Result<OperationUpdate, ProgressError>)
      requires Valid()
      modifies this
      ensures Valid() && nextId == old(nextId)
      ensures succeededBytes == old(succeededBytes) && rolledBackBytes == old(rolledBackBytes)
      ensures if id in old(active) then Accepts(old(View()), View(), id, delta) else View() == old(View())
      ensures View() == WasAdvanced(old(View()), id, delta)
      ensures r.Err? <==> id !in old(active)
      ensures r.Err? ==> r.error == UnknownOperation
      ensures r.Ok? ==> r.value.id == id && r.value.update == Advanced && r.value.operation == active[id]
    {
      hide AddsUp, ActiveBytes, GivesAttemptUp, CountsAttempt, KeepsAttempt, Accepts;
      if id !in active {
        return Err(UnknownOperation);
      }
      AdvanceAddsUp(View(), nextId, succeededBytes, rolledBackBytes, id, delta);
      var op := active[id];
      var available := SubtractSaturating(op.totalBytes, op.attemptBytes);
      var accepted := if delta < available then delta else available;
      op := op.(attemptBytes := op.attemptBytes + accepted);
      active := active[id := op];
      logicalBytes := logicalBytes + accepted;
      wireBytes := wireBytes + accepted;
      return Ok(OperationUpdate(id, Advanced, op));
    }

    /** The answer to a success is about every byte, the answer to a failure about none. */
    method Finish(id: nat, succeeded: bool) returns (r: Result<OperationUpdate, ProgressError>)
      requires Valid()
      modifies this
      ensures Valid() && nextId == old(nextId)
      ensures if id in old(active) then Closes(old(View()), View(), id, succeeded) else View() == old(View())
      ensures View() == WasFinished(old(View()), id, succeeded)
      ensures r.Err? <==> id !in old(active)
      ensures r.Err? ==> r.error == UnknownOperation
      ensures r.Ok? ==>
        && r.value.id == id
        && (r.value.update == Succeeded <==> succeeded) && (r.value.update == Failed <==> !succeeded)
        && var op := old(active)[id];
           r.value.operation == op.(attemptBytes := if succeeded then op.totalBytes else 0)
    {
      hide AddsUp, Closes, ActiveBytes;
      if id !in active {
        return Err(UnknownOperation);
      }
      ghost var before := View();
      FinishAddsUp(before, nextId, succeededBytes, rolledBackBytes, id, succeeded);
      AttemptIsWithinTotal(before, nextId, succeededBytes, rolledBackBytes, id);
      var op := active[id];
      active := active - {id};
      if succeeded {
        var remaining := SubtractSaturating(op.totalBytes, op.attemptBytes);
        op := op.(attemptBytes := op.attemptBytes + remaining);
        logicalBytes := logicalBytes + remaining;
        wireBytes := wireBytes + remaining;
        completedOperations := completedOperations + 1;
        if IsFile(op.kind) {
          completedFiles := completedFiles + 1;
        }
        r := Ok(OperationUpdate(id, Succeeded, op));
      } else {
        logicalBytes := SubtractSaturating(logicalBytes, op.attemptBytes);
        op := op.(attemptBytes := 0);
        failedOperations := failedOperations + 1;
        if IsFile(op.kind) {
          failedFiles := failedFiles + 1;
        }
        r := Ok(OperationUpdate(id, Failed, op));
      }
      succeededBytes := succeededBytes + if succeeded then before.active[id].totalBytes else 0;
      rolledBackBytes := rolledBackBytes + if succeeded then 0 else before.active[id].attemptBytes;
    }
  }
}

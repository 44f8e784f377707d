/** Shared handles on the progress ledger, in every interleaving.

    A handle's check of `finished` and the locked call that follows are separate steps, so calls may
    arrive after the operation is gone. A step here is one atomic operation: allocating an id,
    inserting, cloning, checking, one locked call, the swap that claims the finish, or a drop. */
module LedgerRaces {
  import opened Ledger
  import opened Wrappers

  datatype Call = Begin | Reset | Advance(delta: nat)

  /** What became of an operation, kept as history. */
  datatype Fate =
    | Allocated                          // has an id, not inserted yet
    | Live(state: ActiveOperation)
    | Won
    | Dead

  /** One operation: its history and the state its handles share.

      `calls` are the calls that passed the check of `finished` and wait for the lock; `claimed` is
      the outcome whose caller has swapped `finished` and waits for the lock. */
  datatype Operation = Operation(
    kind: OperationKind,
    totalBytes: nat,
    fate: Fate,
    rolledBack: nat,
    finished: bool,
    handles: nat,
    calls: multiset<Call>,
    claimed: Option<bool>)

  datatype State = State(books: Books, operations: seq<Operation>)

  datatype Action =
    | Allocate(kind: OperationKind, totalBytes: nat)
    | Insert(i: nat)
    | Clone(i: nat)
    | Check(i: nat, call: Call)
    | Locked(i: nat, call: Call)
    | Claim(i: nat, succeeded: bool)
    | Settle(i: nat)
    | Drop(i: nat)

  const START := State(NEW_BOOKS, [])

  /** Operation ids count from one. */
  function Id(i: nat): nat { i + 1 }

  function BooksAfter(b: Books, id: nat, call: Call): Books {
    match call
    case Begin => AttemptBegun(b, id)
    case Reset => AttemptWasReset(b, id)
    case Advance(delta) => WasAdvanced(b, id, delta)
  }

  /** The history of one locked call: bytes of a given-up attempt are rolled back. */
  function FateAfter(op: Operation, b: Books, id: nat, call: Call): Operation {
    if !op.fate.Live? || id !in BooksAfter(b, id, call).active then op
    else op.(fate := Live(BooksAfter(b, id, call).active[id]),
             rolledBack := op.rolledBack + if call.Advance? then 0 else op.fate.state.attemptBytes)
  }

  function Put(s: State, i: nat, op: Operation): State
    requires i < |s.operations|
  {
    s.(operations := s.operations[i := op])
  }

  /** The last handle may go only when no call borrows it. */
  predicate MayDrop(op: Operation) {
    op.handles > 1 || (op.handles == 1 && op.calls == multiset{} && op.claimed.None?)
  }

  /** One atomic step. An action that does not apply leaves the state alone. */
  function Perform(s: State, a: Action): State {
    match a
    case Allocate(kind, totalBytes) =>
      s.(operations := s.operations
           + [Operation(kind, totalBytes, Allocated, 0, false, 0, multiset{}, None)])
    case Insert(i) =>
      if i < |s.operations| && s.operations[i].fate.Allocated? then InsertStep(s, i) else s
    case Clone(i) =>
      if i < |s.operations| && s.operations[i].handles > 0
      then Put(s, i, s.operations[i].(handles := s.operations[i].handles + 1)) else s
    case Check(i, call) =>
      if i < |s.operations| && s.operations[i].handles > 0 && !s.operations[i].finished
      then Put(s, i, s.operations[i].(calls := s.operations[i].calls + multiset{call})) else s
    case Locked(i, call) =>
      if i < |s.operations| && call in s.operations[i].calls then LockedStep(s, i, call) else s
    case Claim(i, succeeded) =>
      if i < |s.operations| && s.operations[i].handles > 0 && !s.operations[i].finished
      then Put(s, i, s.operations[i].(finished := true, claimed := Some(succeeded))) else s
    case Settle(i) =>
      if i < |s.operations| && s.operations[i].claimed.Some? then SettleStep(s, i) else s
    case Drop(i) =>
      if i < |s.operations| && MayDrop(s.operations[i]) then Put(s, i, Dropped(s.operations[i])) else s
  }

  function InsertStep(s: State, i: nat): State
    requires i < |s.operations|
  {
    var op := s.operations[i];
    State(Started(s.books, Id(i), op.kind, op.totalBytes),
          s.operations[i :=
            op.(fate := Live(ActiveOperation(op.kind, op.totalBytes, 0, 0)), handles := 1)])
  }

  function LockedStep(s: State, i: nat, call: Call): State
    requires i < |s.operations|
  {
    var op := s.operations[i];
    State(BooksAfter(s.books, Id(i), call),
          s.operations[i := FateAfter(op, s.books, Id(i), call).(calls := op.calls - multiset{call})])
  }

  function SettleStep(s: State, i: nat): State
    requires i < |s.operations| && s.operations[i].claimed.Some?
  {
    var op := s.operations[i];
    var won := op.claimed.value;
    State(WasFinished(s.books, Id(i), won),
          s.operations[i := if !op.fate.Live? then op.(claimed := None)
                            else op.(claimed := None,
                                     fate := if won then Won else Dead,
                                     rolledBack := op.rolledBack
                                       + if won then 0 else op.fate.state.attemptBytes)])
  }

  /** Dropping the last handle claims a failure unless something was claimed before. */
  function Dropped(op: Operation): Operation
    requires op.handles > 0
  {
    var fewer := op.(handles := op.handles - 1);
    if fewer.handles == 0 && !op.finished then fewer.(finished := true, claimed := Some(false))
    else fewer
  }

  function Execute(s: State, actions: seq<Action>): State {
    if actions == [] then s
    else Perform(Execute(s, actions[..|actions| - 1]), actions[|actions| - 1])
  }

  // ---- Totals over all operations ----

  function Total(operations: seq<Operation>, f: Operation -> nat): nat {
    if operations == [] then 0
    else Total(operations[..|operations| - 1], f) + f(operations[|operations| - 1])
  }

  lemma {:induction false} TotalAfterPut(operations: seq<Operation>, i: nat, op: Operation,
                                         f: Operation -> nat)
    requires i < |operations|
    ensures Total(operations[i := op], f) == Total(operations, f) - f(operations[i]) + f(op)
    ensures f(operations[i]) <= Total(operations, f)
  {
    var n := |operations| - 1;
    if i == n {
      assert operations[i := op][..n] == operations[..n];
    } else {
      TotalAfterPut(operations[..n], i, op, f);
      assert operations[i := op][..n] == operations[..n][i := op];
    }
  }

  lemma TotalOfOneMore(operations: seq<Operation>, op: Operation, f: Operation -> nat)
    ensures Total(operations + [op], f) == Total(operations, f) + f(op)
  {
    assert (operations + [op])[..|operations|] == operations;
  }

  /** Bytes an operation contributes to the logical position. */
  function Logical(op: Operation): nat {
    match op.fate
    case Won => op.totalBytes
    case Live(state) => state.attemptBytes
    case _ => 0
  }

  function RolledBack(op: Operation): nat { op.rolledBack }

  function IsWon(op: Operation): nat { if op.fate.Won? then 1 else 0 }

  function IsDead(op: Operation): nat { if op.fate.Dead? then 1 else 0 }

  function IsWonFile(op: Operation): nat { if op.fate.Won? && IsFile(op.kind) then 1 else 0 }

  function IsDeadFile(op: Operation): nat { if op.fate.Dead? && IsFile(op.kind) then 1 else 0 }

  // ---- The invariant ----

  /** The flags of one operation agree with its fate. */
  predicate Coherent(op: Operation) {
    match op.fate
    case Allocated => !op.finished && op.handles == 0 && op.calls == multiset{} && op.claimed.None?
    case Live(state) =>
      && state.kind == op.kind && state.totalBytes == op.totalBytes
      && state.attemptBytes <= op.totalBytes
      && (op.finished <==> op.claimed.Some?)
      && (op.handles == 0 ==> op.finished && op.calls == multiset{})
    case _ => op.finished && op.claimed.None? && (op.handles == 0 ==> op.calls == multiset{})
  }

  ghost predicate ActiveAgrees(s: State) {
    && (forall i | 0 <= i < |s.operations| ::
          && (Id(i) in s.books.active <==> s.operations[i].fate.Live?)
          && (Id(i) in s.books.active ==> s.books.active[Id(i)] == s.operations[i].fate.state))
    && (forall id <- s.books.active :: 1 <= id <= |s.operations|)
  }

  ghost predicate CountersAgree(b: Books, operations: seq<Operation>) {
    && b.logicalBytes == Total(operations, Logical)
    && b.wireBytes == Total(operations, Logical) + Total(operations, RolledBack)
    && b.completedOperations == Total(operations, IsWon)
    && b.failedOperations == Total(operations, IsDead)
    && b.completedFiles == Total(operations, IsWonFile)
    && b.failedFiles == Total(operations, IsDeadFile)
  }

  ghost predicate Inv(s: State) {
    && (forall op <- s.operations :: Coherent(op))
    && ActiveAgrees(s)
    && CountersAgree(s.books, s.operations)
  }

  lemma TotalsAfterPut(operations: seq<Operation>, i: nat, op: Operation)
    requires i < |operations|
    ensures Total(operations[i := op], Logical) == Total(operations, Logical) - Logical(operations[i]) + Logical(op)
    ensures Total(operations[i := op], RolledBack)
         == Total(operations, RolledBack) - operations[i].rolledBack + op.rolledBack
    ensures Total(operations[i := op], IsWon) == Total(operations, IsWon) - IsWon(operations[i]) + IsWon(op)
    ensures Total(operations[i := op], IsDead) == Total(operations, IsDead) - IsDead(operations[i]) + IsDead(op)
    ensures Total(operations[i := op], IsWonFile)
         == Total(operations, IsWonFile) - IsWonFile(operations[i]) + IsWonFile(op)
    ensures Total(operations[i := op], IsDeadFile)
         == Total(operations, IsDeadFile) - IsDeadFile(operations[i]) + IsDeadFile(op)
    ensures Logical(operations[i]) <= Total(operations, Logical)
  {
    TotalAfterPut(operations, i, op, Logical);
    TotalAfterPut(operations, i, op, RolledBack);
    TotalAfterPut(operations, i, op, IsWon);
    TotalAfterPut(operations, i, op, IsDead);
    TotalAfterPut(operations, i, op, IsWonFile);
    TotalAfterPut(operations, i, op, IsDeadFile);
  }

  /** A step on one operation keeps the invariant if it keeps that operation coherent, keeps the
      ledger's entry for it in step, and changes the counters by what it changes. */
  lemma PutKeepsInv(s: State, t: State, i: nat)
    requires Inv(s) && i < |s.operations| && |t.operations| == |s.operations|
    requires t.operations == s.operations[i := t.operations[i]] && Coherent(t.operations[i])
    requires Id(i) in t.books.active <==> t.operations[i].fate.Live?
    requires Id(i) in t.books.active ==> t.books.active[Id(i)] == t.operations[i].fate.state
    requires t.books.active - {Id(i)} == s.books.active - {Id(i)}
    requires CountersAgree(t.books, t.operations)
    ensures Inv(t)
  {
    forall op <- t.operations ensures Coherent(op) {
      var k :| 0 <= k < |t.operations| && t.operations[k] == op;
      if k != i { assert s.operations[k] == op && s.operations[k] in s.operations; }
    }
    forall k | 0 <= k < |t.operations| && k != i
      ensures Id(k) in t.books.active <==> t.operations[k].fate.Live?
      ensures Id(k) in t.books.active ==> t.books.active[Id(k)] == t.operations[k].fate.state
    {
      assert Id(k) in t.books.active <==> Id(k) in t.books.active - {Id(i)};
      assert Id(k) in s.books.active <==> Id(k) in s.books.active - {Id(i)};
      if Id(k) in s.books.active {
        assert (s.books.active - {Id(i)})[Id(k)] == s.books.active[Id(k)];
      }
    }
    forall id <- t.books.active ensures 1 <= id <= |t.operations| {
      if id != Id(i) {
        assert id in t.books.active - {Id(i)};
        assert id in s.books.active - {Id(i)};
      }
    }
  }

  lemma LockedKeepsInv(s: State, i: nat, call: Call)
    requires Inv(s) && i < |s.operations| && call in s.operations[i].calls
    ensures Inv(LockedStep(s, i, call))
  {
    hide Total;
    var t := LockedStep(s, i, call);
    assert s.operations[i] in s.operations;
    TotalsAfterPut(s.operations, i, t.operations[i]);
    PutKeepsInv(s, t, i);
  }

  lemma SettleKeepsInv(s: State, i: nat)
    requires Inv(s) && i < |s.operations| && s.operations[i].claimed.Some?
    ensures Inv(SettleStep(s, i))
  {
    hide Total;
    var t := SettleStep(s, i);
    assert s.operations[i] in s.operations;
    TotalsAfterPut(s.operations, i, t.operations[i]);
    PutKeepsInv(s, t, i);
  }

  lemma InsertKeepsInv(s: State, i: nat)
    requires Inv(s) && i < |s.operations| && s.operations[i].fate.Allocated?
    ensures Inv(InsertStep(s, i))
  {
    hide Total;
    var t := InsertStep(s, i);
    assert s.operations[i] in s.operations;
    TotalsAfterPut(s.operations, i, t.operations[i]);
    PutKeepsInv(s, t, i);
  }

  /** Cloning, checking, claiming and dropping change no counter. */
  lemma FlagKeepsInv(s: State, i: nat, op: Operation)
    requires Inv(s) && i < |s.operations| && Coherent(op)
    requires op.fate == s.operations[i].fate && op.rolledBack == s.operations[i].rolledBack
    requires op.kind == s.operations[i].kind && op.totalBytes == s.operations[i].totalBytes
    ensures Inv(Put(s, i, op))
  {
    hide Total;
    TotalsAfterPut(s.operations, i, op);
    PutKeepsInv(s, Put(s, i, op), i);
  }

  lemma AllocateKeepsInv(s: State, op: Operation)
    requires Inv(s) && Coherent(op) && op.fate.Allocated? && op.rolledBack == 0
    ensures Inv(s.(operations := s.operations + [op]))
  {
    hide Total;
    var all := s.operations + [op];
    TotalOfOneMore(s.operations, op, Logical);
    TotalOfOneMore(s.operations, op, RolledBack);
    TotalOfOneMore(s.operations, op, IsWon);
    TotalOfOneMore(s.operations, op, IsDead);
    TotalOfOneMore(s.operations, op, IsWonFile);
    TotalOfOneMore(s.operations, op, IsDeadFile);
    assert Id(|s.operations|) !in s.books.active;
  }

  lemma StepKeepsInv(s: State, a: Action)
    requires Inv(s)
    ensures Inv(Perform(s, a))
  {
    hide Total, ActiveAgrees, CountersAgree;
    if !a.Allocate? && a.i < |s.operations| {
      assert s.operations[a.i] in s.operations;
    }
    match a
    case Allocate(kind, totalBytes) =>
      AllocateKeepsInv(s, Operation(kind, totalBytes, Allocated, 0, false, 0, multiset{}, None));
    case Insert(i) =>
      if i < |s.operations| && s.operations[i].fate.Allocated? { InsertKeepsInv(s, i); }
    case Locked(i, call) =>
      if i < |s.operations| && call in s.operations[i].calls { LockedKeepsInv(s, i, call); }
    case Settle(i) =>
      if i < |s.operations| && s.operations[i].claimed.Some? { SettleKeepsInv(s, i); }
    case Clone(i) =>
      if i < |s.operations| && s.operations[i].handles > 0 {
        FlagKeepsInv(s, i, Perform(s, a).operations[i]);
      }
    case Check(i, _) =>
      if i < |s.operations| && s.operations[i].handles > 0 && !s.operations[i].finished {
        FlagKeepsInv(s, i, Perform(s, a).operations[i]);
      }
    case Claim(i, _) =>
      if i < |s.operations| && s.operations[i].handles > 0 && !s.operations[i].finished {
        FlagKeepsInv(s, i, Perform(s, a).operations[i]);
      }
    case Drop(i) =>
      if i < |s.operations| && MayDrop(s.operations[i]) {
        FlagKeepsInv(s, i, Dropped(s.operations[i]));
      }
  }

  /** Safety of every run. */
  lemma {:induction false} RunsKeepInv(s: State, actions: seq<Action>)
    requires Inv(s)
    ensures Inv(Execute(s, actions))
  {
    if actions != [] {
      RunsKeepInv(s, actions[..|actions| - 1]);
      StepKeepsInv(Execute(s, actions[..|actions| - 1]), actions[|actions| - 1]);
    }
  }

  // ---- What every run keeps ----

  /** At every lock release of every interleaving the counters are exact, no attempt outgrows its
      total, and no subtraction would saturate. */
  lemma {:induction false} CountersAreExact(actions: seq<Action>)
    ensures var s := Execute(START, actions);
      && s.books.logicalBytes == Total(s.operations, Logical)
      && s.books.wireBytes == s.books.logicalBytes + Total(s.operations, RolledBack)
      && (forall id <- s.books.active ::
            s.books.active[id].attemptBytes <= s.books.active[id].totalBytes
            && s.books.active[id].attemptBytes <= s.books.logicalBytes)
  {
    RunsKeepInv(START, actions);
    var s := Execute(START, actions);
    forall id <- s.books.active
      ensures s.books.active[id].attemptBytes <= s.books.active[id].totalBytes
      ensures s.books.active[id].attemptBytes <= s.books.logicalBytes
    {
      var i := id - 1;
      assert Id(i) == id && s.operations[i] in s.operations;
      TotalAfterPut(s.operations, i, s.operations[i], Logical);
    }
  }

  // ---- What one step does ----

  /** A locked call that reaches an operation in progress does to the books what the call is for; one that
      comes too late does nothing. Either way it waits no longer. */
  lemma LockedStepMeans(s: State, i: nat, call: Call)
    requires Inv(s) && i < |s.operations| && call in s.operations[i].calls
    ensures var t := Perform(s, Locked(i, call));
            var op := s.operations[i];
      && |t.operations| == |s.operations|
      && t.operations[i].calls == op.calls - multiset{call}
      && (t.operations[i].fate.Live? <==> op.fate.Live?)
      && if !op.fate.Live? then t.books == s.books && t.operations[i].fate == op.fate
         else match call
              case Begin => GivesAttemptUp(s.books, t.books, Id(i)) && CountsAttempt(s.books, t.books, Id(i))
              case Reset => GivesAttemptUp(s.books, t.books, Id(i)) && KeepsAttempt(s.books, t.books, Id(i))
              case Advance(delta) => Accepts(s.books, t.books, Id(i), delta)
  {
    hide Total;
    assert s.operations[i] in s.operations;
    TotalAfterPut(s.operations, i, s.operations[i], Logical);
  }

  /** Inserting makes an allocated operation active, with no bytes and no attempt, and hands out one handle. */
  lemma InsertStepMeans(s: State, i: nat)
    requires Inv(s) && i < |s.operations| && s.operations[i].fate.Allocated?
    ensures var op, t := s.operations[i], Perform(s, Insert(i));
            var state := ActiveOperation(op.kind, op.totalBytes, 0, 0);
      && Id(i) !in s.books.active
      && t.books == s.books.(active := s.books.active[Id(i) := state])
      && t.operations == s.operations[i := op.(fate := Live(state), handles := 1)]
  {
    hide Total, CountersAgree;
  }

  /** Settling a claim on an operation in progress closes it with the outcome claimed. */
  lemma SettleStepMeans(s: State, i: nat)
    requires Inv(s) && i < |s.operations| && s.operations[i].claimed.Some? && s.operations[i].fate.Live?
    ensures var t := Perform(s, Settle(i));
            var succeeded := s.operations[i].claimed.value;
      && |t.operations| == |s.operations|
      && Closes(s.books, t.books, Id(i), succeeded)
      && t.operations[i].fate == (if succeeded then Won else Dead)
      && t.operations[i].claimed.None?
  {
    hide Total;
    assert s.operations[i] in s.operations;
    TotalAfterPut(s.operations, i, s.operations[i], Logical);
  }

  /** The first to claim wins, dropping the last handle claims a failure if nobody claimed before, and no
      call gets past the check once something is claimed. */
  lemma FirstClaimCounts(s: State, i: nat, succeeded: bool, call: Call)
    requires Inv(s) && i < |s.operations| && s.operations[i].handles > 0
    ensures var op, t := s.operations[i], Perform(s, Claim(i, succeeded));
      if op.finished then t == s
      else t == s.(operations := t.operations) && |t.operations| == |s.operations|
           && t.operations[i] == op.(finished := true, claimed := Some(succeeded))
    ensures var op, t := s.operations[i], Perform(s, Check(i, call));
      if op.finished then t == s
      else t == s.(operations := t.operations) && |t.operations| == |s.operations|
           && t.operations[i] == op.(calls := op.calls + multiset{call})
    ensures var op, t := s.operations[i], Perform(s, Drop(i));
      op.handles == 1 && op.calls == multiset{} && op.claimed.None? ==>
        && |t.operations| == |s.operations| && t.operations[i].handles == 0
        && t.operations[i].claimed == (if IsOver(op) then None else Some(false))
  {
    hide Total, ActiveAgrees, CountersAgree;
    assert s.operations[i] in s.operations;
  }

  predicate IsOver(op: Operation) {
    op.fate.Won? || op.fate.Dead?
  }

  /** An operation that is over stays over with the same outcome, and no step on it, however late,
      changes the books. */
  lemma {:induction false} OverIsFinal(s: State, a: Action, i: nat)
    requires Inv(s) && i < |s.operations| && IsOver(s.operations[i])
    ensures i < |Perform(s, a).operations|
    ensures Perform(s, a).operations[i].fate == s.operations[i].fate
    ensures Perform(s, a).operations[i].rolledBack == s.operations[i].rolledBack
    ensures !a.Allocate? && a.i == i ==> Perform(s, a).books == s.books
  {
    hide Total, CountersAgree;
    assert s.operations[i] in s.operations && Id(i) !in s.books.active;
  }

  lemma {:induction false} OverInEveryContinuation(s: State, actions: seq<Action>, i: nat)
    requires Inv(s) && i < |s.operations| && IsOver(s.operations[i])
    ensures i < |Execute(s, actions).operations|
    ensures Execute(s, actions).operations[i].fate == s.operations[i].fate
  {
    if actions != [] {
      var shorter := actions[..|actions| - 1];
      OverInEveryContinuation(s, shorter, i);
      RunsKeepInv(s, shorter);
      OverIsFinal(Execute(s, shorter), actions[|actions| - 1], i);
    }
  }

  /** The claim of a finish always settles: its operation is still in the books, so the locked call
      behind it cannot fail. */
  lemma {:induction false} ClaimsAlwaysSettle(actions: seq<Action>, i: nat)
    requires i < |Execute(START, actions).operations|
    requires Execute(START, actions).operations[i].claimed.Some?
    ensures Id(i) in Execute(START, actions).books.active
    ensures IsOver(Perform(Execute(START, actions), Settle(i)).operations[i])
    ensures Perform(Execute(START, actions), Settle(i)).operations[i].fate.Won?
        <==> Execute(START, actions).operations[i].claimed == Some(true)
  {
    RunsKeepInv(START, actions);
    var s := Execute(START, actions);
    assert s.operations[i] in s.operations;
  }

  /** No handle is left anywhere and no call is in progress. */
  ghost predicate AllHandlesGone(s: State) {
    forall op <- s.operations :: !op.fate.Allocated? && op.handles == 0 && op.claimed.None?
  }

  function FileOne(op: Operation): nat { if op.kind == Upload then 1 else 0 }

  function WonBytes(op: Operation): nat { if op.fate.Won? then op.totalBytes else 0 }

  lemma {:induction false} OverAddsUp(operations: seq<Operation>)
    requires forall op <- operations :: IsOver(op)
    ensures Total(operations, IsWon) + Total(operations, IsDead) == |operations|
    ensures Total(operations, IsWonFile) + Total(operations, IsDeadFile) == Total(operations, FileOne)
    ensures Total(operations, Logical) == Total(operations, WonBytes)
  {
    if operations != [] {
      var n := |operations| - 1;
      assert operations[n] in operations;
      OverAddsUp(operations[..n]);
    }
  }

  /** When all handles are gone nothing is active, every started operation is counted once as
      completed or failed, files likewise, and the logical bytes are those of what succeeded. */
  lemma {:induction false} AllIsCountedOnce(actions: seq<Action>)
    requires AllHandlesGone(Execute(START, actions))
    ensures var s := Execute(START, actions);
      && s.books.active == map[]
      && s.books.completedOperations + s.books.failedOperations == |s.operations|
      && s.books.completedFiles + s.books.failedFiles == Total(s.operations, FileOne)
      && s.books.logicalBytes == Total(s.operations, WonBytes)
  {
    RunsKeepInv(START, actions);
    var s := Execute(START, actions);
    forall op <- s.operations ensures IsOver(op) {
      assert Coherent(op);
    }
    OverAddsUp(s.operations);
    forall id: nat ensures id !in s.books.active {
      if 1 <= id <= |s.operations| {
        assert Id(id - 1) == id && s.operations[id - 1] in s.operations;
      }
    }
  }
}

/** The login loop: a server that may ask for one-time codes, a vault that may generate them, and a
    user who may type one.

    `Authenticate` is the loop with its flags. `Journey` says what it amounts to: a walk through
    five stages that never returns to one it has left. */
module Login {
  import opened Wrappers

  const CODE_REQUIRED := 403
  const CODE_REJECTED := 404
  const CODE_ENFORCED := 406

  datatype ServerError = ServerError(code: Option<int>, text: string)

  datatype Reply = Accepted | Refused(error: ServerError)

  datatype LoginError =
    | NoCodeSource                       // no stored seed, nobody at a terminal
    | VaultFailed(vault: string)
    | RefreshFailed(refresh: string)
    | GeneratedRejected
    | SuppliedRejected
    | StillRequired(server: ServerError)
    | PromptFailed(prompt: string)
    | Server(error: ServerError)

  predicate AsksForCode(reply: Reply) {
    reply.Refused? && reply.error.code in {Some(CODE_REQUIRED), Some(CODE_ENFORCED)}
  }

  predicate RejectsCode(reply: Reply) {
    reply.Refused? && reply.error.code == Some(CODE_REJECTED)
  }

  type Reading = Result<Option<string>, string>

  /** The answers the outside will give to the first, second, ... question of each kind. The loop is
      deterministic, so this covers an adversary who looks at the questions first. */
  datatype World = World(
    replies: nat -> Reply,
    vault: nat -> Reading,
    terminal: nat -> bool,
    prompt: nat -> Result<string, string>)

  /** How many questions of each kind were asked. */
  datatype Tally = Tally(logins: nat, vaultReads: nat, checks: nat, prompts: nat)

  const NOTHING_ASKED := Tally(0, 0, 0, 0)

  /** Where the code of an attempt came from. */
  datatype Stage = Bare | Supplied | FirstVault | SecondVault | Typed

  /** One login: the loop's flags as it was made, the code that went out and the reply. */
  datatype Attempt = Attempt(stage: Stage, prompted: bool, generated: bool, code: Option<string>, reply: Reply)

  datatype Ending = Ending(failure: Option<LoginError>, attempts: seq<Attempt>, asked: Tally)

  function Rank(stage: Stage): nat {
    match stage
    case Bare => 4
    case FirstVault => 3
    case SecondVault => 2
    case Supplied => 2
    case Typed => 1
  }

  // ---- The stages ----

  function Try(stage: Stage, code: Option<string>, reply: Reply): Attempt {
    Attempt(stage, stage.Typed?, stage.FirstVault? || stage.SecondVault?, code, reply)
  }

  /** Log in at this stage and carry on as the answer demands. */
  function Journey(w: World, stage: Stage, code: Option<string>, k: Tally): Ending
    decreases Rank(stage), 1
  {
    var reply := w.replies(k.logins);
    var asked := k.(logins := k.logins + 1);
    var rest := if reply.Accepted? then Ending(None, [], asked)
                else AfterRefusal(w, stage, code, reply.error, asked);
    rest.(attempts := [Try(stage, code, reply)] + rest.attempts)
  }

  function AfterRefusal(w: World, stage: Stage, code: Option<string>, error: ServerError, k: Tally): Ending
    decreases Rank(stage), 0
  {
    if AsksForCode(Refused(error)) then
      if stage.Bare? then
        var asked := k.(vaultReads := k.vaultReads + 1);
        match w.vault(k.vaultReads)
        case Ok(Some(generated)) => Journey(w, FirstVault, Some(generated), asked)
        case Ok(None) => AskUser(w, NoCodeSource, asked)
        case Err(e) => AskUser(w, VaultFailed(e), asked)
      else Ending(Some(StillRequired(error)), [], k)
    else if RejectsCode(Refused(error)) then
      match stage
      case Bare => AskUser(w, Server(error), k)
      case Supplied => AskUser(w, SuppliedRejected, k)
      case FirstVault => Regenerate(w, code, k)
      case SecondVault => AskUser(w, GeneratedRejected, k)
      case Typed => Ending(Some(SuppliedRejected), [], k)
    else Ending(Some(Server(error)), [], k)
  }

  /** Try the vault once more; the same code again is no use. */
  function Regenerate(w: World, code: Option<string>, k: Tally): Ending
    decreases 2, 3
  {
    var asked := k.(vaultReads := k.vaultReads + 1);
    match w.vault(k.vaultReads)
    case Ok(Some(renewed)) =>
      if Some(renewed) == code then AskUser(w, GeneratedRejected, asked)
      else Journey(w, SecondVault, Some(renewed), asked)
    case Ok(None) => AskUser(w, GeneratedRejected, asked)
    case Err(e) => AskUser(w, RefreshFailed(e), asked)
  }

  /** Have a code typed in, or fail for the given reason when nobody can. */
  function AskUser(w: World, otherwise: LoginError, k: Tally): Ending
    decreases 1, 2
  {
    var checked := k.(checks := k.checks + 1);
    if !w.terminal(k.checks) then Ending(Some(otherwise), [], checked) else
      var prompted := checked.(prompts := k.prompts + 1);
      match w.prompt(k.prompts)
      case Ok(typed) => Journey(w, Typed, Some(typed), prompted)
      case Err(e) => Ending(Some(PromptFailed(e)), [], prompted)
  }

  function FirstStage(otp: Option<string>): Stage {
    if otp.None? then Bare else Supplied
  }

  function Whole(w: World, otp: Option<string>): Ending {
    Journey(w, FirstStage(otp), otp, NOTHING_ASKED)
  }

  // ---- The loop ----

  /** The stage the loop's flags stand for. */
  function StageOf(otp: Option<string>, prompted: bool, generated: bool, regenerated: bool): Stage {
    if prompted then Typed
    else if generated then (if regenerated then SecondVault else FirstVault)
    else FirstStage(otp)
  }

  method ReplaceIfChanged(current: Option<string>, renewed: string) returns (next: Option<string>, changed: bool)
    ensures next == Some(renewed) && (changed <==> current != next)
  {
    if current == Some(renewed) {
      return current, false;
    }
    return Some(renewed), true;
  }

  /** What is still to come ends the whole run when put after what was done. */
  ghost predicate Leads(whole: Ending, attempts: seq<Attempt>, rest: Ending) {
    whole == rest.(attempts := attempts + rest.attempts)
  }

  lemma LoginStep(w: World, whole: Ending, attempts: seq<Attempt>, stage: Stage, code: Option<string>, k: Tally)
    requires Leads(whole, attempts, Journey(w, stage, code, k))
    ensures var reply := w.replies(k.logins);
            var asked := k.(logins := k.logins + 1);
            Leads(whole, attempts + [Try(stage, code, reply)],
                  if reply.Accepted? then Ending(None, [], asked)
                  else AfterRefusal(w, stage, code, reply.error, asked))
  {
    hide AfterRefusal;
    var reply := w.replies(k.logins);
    var asked := k.(logins := k.logins + 1);
    var rest := if reply.Accepted? then Ending(None, [], asked)
                else AfterRefusal(w, stage, code, reply.error, asked);
    assert Journey(w, stage, code, k) == rest.(attempts := [Try(stage, code, reply)] + rest.attempts);
    assert attempts + ([Try(stage, code, reply)] + rest.attempts)
        == attempts + [Try(stage, code, reply)] + rest.attempts;
  }

  /** What the flags make of a refusal is what its stage makes of it. */
  lemma RefusalStep(w: World, otp: Option<string>, prompted: bool, generated: bool, regenerated: bool,
                    error: ServerError, k: Tally)
    requires !(prompted && generated) && (prompted || generated ==> otp.Some?)
    ensures var rest := AfterRefusal(w, StageOf(otp, prompted, generated, regenerated), otp, error, k);
            var asked := k.(vaultReads := k.vaultReads + 1);
      if AsksForCode(Refused(error)) && otp.None? then
        (match w.vault(k.vaultReads)
         case Ok(Some(code)) => rest == Journey(w, FirstVault, Some(code), asked)
         case Ok(None) => rest == AskUser(w, NoCodeSource, asked)
         case Err(e) => rest == AskUser(w, VaultFailed(e), asked))
      else if RejectsCode(Refused(error)) && generated && !regenerated then
        (match w.vault(k.vaultReads)
         case Ok(Some(code)) =>
           rest == if otp == Some(code) then AskUser(w, GeneratedRejected, asked)
                   else Journey(w, SecondVault, Some(code), asked)
         case Ok(None) => rest == AskUser(w, GeneratedRejected, asked)
         case Err(e) => rest == AskUser(w, RefreshFailed(e), asked))
      else if RejectsCode(Refused(error)) && !prompted then
        rest == AskUser(w, if generated then GeneratedRejected
                           else if otp.Some? then SuppliedRejected else Server(error), k)
      else
        rest == Ending(Some(if RejectsCode(Refused(error)) then SuppliedRejected
                            else if AsksForCode(Refused(error)) then StillRequired(error)
                            else Server(error)), [], k)
  {
    hide Journey, AskUser;
  }

  lemma AskStep(w: World, otherwise: LoginError, k: Tally)
    ensures var checked := k.(checks := k.checks + 1);
            var prompted := checked.(prompts := k.prompts + 1);
      AskUser(w, otherwise, k)
      == if !w.terminal(k.checks) then Ending(Some(otherwise), [], checked)
         else match w.prompt(k.prompts)
              case Ok(typed) => Journey(w, Typed, Some(typed), prompted)
              case Err(e) => Ending(Some(PromptFailed(e)), [], prompted)
  {
    hide Journey;
  }

  method Authenticate(w: World, given: Option<string>)
    returns (r: Option<LoginError>, attempts: seq<Attempt>, k: Tally)
    ensures Ending(r, attempts, k) == Whole(w, given)
  {
    var otp := given;
    var prompted, generated, regenerated := false, false, false;
    attempts, k := [], NOTHING_ASKED;
    ghost var whole := Whole(w, given);
    hide Journey, AfterRefusal, AskUser, Regenerate, AsksForCode, RejectsCode;
    while true
      invariant !(prompted && generated)
      invariant (prompted || generated) ==> otp.Some?
      invariant Leads(whole, attempts, Journey(w, StageOf(otp, prompted, generated, regenerated), otp, k))
      decreases Rank(StageOf(otp, prompted, generated, regenerated))
    {
      LoginStep(w, whole, attempts, StageOf(otp, prompted, generated, regenerated), otp, k);
      var reply := w.replies(k.logins);
      k := k.(logins := k.logins + 1);
      attempts := attempts + [Attempt(StageOf(otp, prompted, generated, regenerated), prompted, generated, otp, reply)];
      if reply.Accepted? {
        return None, attempts, k;
      }
      var error := reply.error;
      RefusalStep(w, otp, prompted, generated, regenerated, error, k);
      var reason: LoginError;
      if AsksForCode(reply) && otp.None? && !prompted {
        var answer := w.vault(k.vaultReads);
        k := k.(vaultReads := k.vaultReads + 1);
        match answer {
          case Ok(Some(code)) =>
            otp, generated, regenerated := Some(code), true, false;
            continue;
          case Ok(None) => reason := NoCodeSource;
          case Err(e) => reason := VaultFailed(e);
        }
      } else if RejectsCode(reply) && generated && !regenerated {
        var answer := w.vault(k.vaultReads);
        k := k.(vaultReads := k.vaultReads + 1);
        match answer {
          case Ok(Some(renewed)) =>
            var changed;
            otp, changed := ReplaceIfChanged(otp, renewed);
            if changed {
              regenerated := true;
              continue;
            }
            reason := GeneratedRejected;
          case Ok(None) => reason := GeneratedRejected;
          case Err(e) => reason := RefreshFailed(e);
        }
      } else if RejectsCode(reply) && !prompted {
        reason := if generated then GeneratedRejected
                  else if otp.Some? then SuppliedRejected else Server(error);
      } else {
        var final := if RejectsCode(reply) && generated then GeneratedRejected
                     else if RejectsCode(reply) && otp.Some? then SuppliedRejected
                     else if AsksForCode(reply) then StillRequired(error) else Server(error);
        return Some(final), attempts, k;
      }
      AskStep(w, reason, k);
      var interactive := w.terminal(k.checks);
      k := k.(checks := k.checks + 1);
      if !interactive {
        return Some(reason), attempts, k;
      }
      var typed := w.prompt(k.prompts);
      k := k.(prompts := k.prompts + 1);
      if typed.Err? {
        return Some(PromptFailed(typed.error)), attempts, k;
      }
      otp, prompted, generated := Some(typed.value), true, false;
    }
  }

  // ---- What the journey keeps ----

  /** The code of an attempt is the one its stage names. */
  predicate FromItsSource(w: World, otp: Option<string>, a: Attempt) {
    && a.prompted == a.stage.Typed?
    && a.generated == (a.stage.FirstVault? || a.stage.SecondVault?)
    && match a.stage
    case Bare => otp.None? && a.code == None
    case Supplied => otp.Some? && a.code == otp
    case FirstVault => a.code.Some? && w.vault(0) == Ok(a.code)
    case SecondVault => a.code.Some? && w.vault(1) == Ok(a.code)
    case Typed => a.code.Some? && w.terminal(0) && w.prompt(0) == Ok(a.code.value)
  }

  /** The vault holds a code for an attempt that had none. */
  predicate VaultHelps(w: World) {
    w.vault(0).Ok? && w.vault(0).value.Some?
  }

  /** The vault holds another code than the one rejected. */
  predicate VaultRenews(w: World, rejected: Option<string>) {
    w.vault(1).Ok? && w.vault(1).value.Some? && w.vault(1).value != rejected
  }

  /** Nothing but a typed code is left after the attempt. */
  predicate UsersTurn(w: World, a: Attempt) {
    || (a.stage.Bare? && AsksForCode(a.reply) && !VaultHelps(w))
    || (!a.stage.Typed? && RejectsCode(a.reply) && (a.stage.FirstVault? ==> !VaultRenews(w, a.code)))
  }

  /** One attempt follows another only for this reason. */
  predicate MayFollow(w: World, a: Attempt, b: Attempt) {
    match b.stage
    case FirstVault => a.stage.Bare? && AsksForCode(a.reply)
    case SecondVault => a.stage.FirstVault? && RejectsCode(a.reply) && a.code != b.code
    case Typed => UsersTurn(w, a)
    case _ => false
  }

  ghost predicate Chained(w: World, attempts: seq<Attempt>) {
    forall i | 0 < i < |attempts| :: MayFollow(w, attempts[i - 1], attempts[i])
  }

  /** Why the login may fail after an attempt. */
  predicate Explains(w: World, last: Attempt, failure: LoginError) {
    match failure
    case NoCodeSource => last.stage.Bare? && AsksForCode(last.reply) && w.vault(0) == Ok(None) && !w.terminal(0)
    case VaultFailed(e) => last.stage.Bare? && AsksForCode(last.reply) && w.vault(0) == Err(e) && !w.terminal(0)
    case RefreshFailed(e) =>
      last.stage.FirstVault? && RejectsCode(last.reply) && w.vault(1) == Err(e) && !w.terminal(0)
    case GeneratedRejected =>
      && RejectsCode(last.reply) && !w.terminal(0)
      && (last.stage.SecondVault? || (last.stage.FirstVault? && w.vault(1) in {Ok(None), Ok(last.code)}))
    case SuppliedRejected =>
      RejectsCode(last.reply) && (last.stage.Typed? || (last.stage.Supplied? && !w.terminal(0)))
    case StillRequired(e) => last.reply == Refused(e) && AsksForCode(last.reply) && !last.stage.Bare?
    case PromptFailed(e) =>
      w.terminal(0) && w.prompt(0) == Err(e) && UsersTurn(w, last)
    case Server(e) =>
      && last.reply == Refused(e) && !AsksForCode(last.reply)
      && (RejectsCode(last.reply) ==> last.stage.Bare? && !w.terminal(0))
  }

  /** Everything that is kept of attempts made from the given count of questions on. */
  ghost predicate Sound(w: World, otp: Option<string>, k: Tally, e: Ending) {
    && |e.attempts| > 0 && e.asked.logins == k.logins + |e.attempts|
    && (forall i | 0 <= i < |e.attempts| ::
          e.attempts[i].reply == w.replies(k.logins + i) && FromItsSource(w, otp, e.attempts[i]))
    && Chained(w, e.attempts)
    && e.asked.vaultReads <= 2 && e.asked.prompts <= e.asked.checks <= 1
    && (otp.Some? ==> e.asked.vaultReads == 0)
    && var last := e.attempts[|e.attempts| - 1];
       match e.failure
       case None => last.reply.Accepted?
       case Some(failure) => last.reply.Refused? && Explains(w, last, failure)
  }

  /** The questions asked before an attempt at a stage. */
  predicate AskedBefore(stage: Stage, otp: Option<string>, k: Tally) {
    match stage
    case Bare => otp.None? && k == NOTHING_ASKED
    case Supplied => otp.Some? && k == NOTHING_ASKED
    case FirstVault => otp.None? && k == Tally(1, 1, 0, 0)
    case SecondVault => otp.None? && k == Tally(2, 2, 0, 0)
    case Typed => k.vaultReads <= 2 && k.checks == k.prompts == 1 && (otp.Some? ==> k.vaultReads == 0)
  }

  /** Nothing was tried since this attempt; `e` is what came after it. */
  lemma OneMoreAttempt(w: World, otp: Option<string>, k: Tally, first: Attempt, e: Ending)
    requires first.reply == w.replies(k.logins) && FromItsSource(w, otp, first)
    requires Sound(w, otp, k.(logins := k.logins + 1), e) && MayFollow(w, first, e.attempts[0])
    ensures Sound(w, otp, k, e.(attempts := [first] + e.attempts))
  {
    var all := [first] + e.attempts;
    forall i | 0 <= i < |all| ensures all[i].reply == w.replies(k.logins + i) && FromItsSource(w, otp, all[i]) {
      if i > 0 {
        assert all[i] == e.attempts[i - 1];
        assert k.logins + 1 + (i - 1) == k.logins + i;
      }
    }
    assert all[|all| - 1] == e.attempts[|e.attempts| - 1];
  }

  /** Nothing comes after this attempt. */
  lemma LastAttempt(w: World, otp: Option<string>, k: Tally, last: Attempt, e: Ending)
    requires last.reply == w.replies(k.logins) && FromItsSource(w, otp, last)
    requires e.attempts == [last] && e.asked.logins == k.logins + 1
    requires e.asked.vaultReads <= 2 && e.asked.prompts <= e.asked.checks <= 1
    requires otp.Some? ==> e.asked.vaultReads == 0
    requires match e.failure
             case None => last.reply.Accepted?
             case Some(failure) => last.reply.Refused? && Explains(w, last, failure)
    ensures Sound(w, otp, k, e)
  {
    hide FromItsSource, Explains;
  }

  lemma AskingIsSound(w: World, otp: Option<string>, k: Tally, first: Attempt, otherwise: LoginError, asked: Tally)
    requires first.reply == w.replies(k.logins) && FromItsSource(w, otp, first)
    requires UsersTurn(w, first)
    requires !w.terminal(0) ==> Explains(w, first, otherwise)
    requires asked.logins == k.logins + 1 && asked.vaultReads <= 2 && asked.checks == asked.prompts == 0
    requires otp.Some? ==> asked.vaultReads == 0
    ensures var e := AskUser(w, otherwise, asked);
            Sound(w, otp, k, e.(attempts := [first] + e.attempts))
    decreases 1, 2
  {
    hide Journey, Chained;
    var e := AskUser(w, otherwise, asked);
    if w.terminal(0) && w.prompt(0).Ok? {
      var prompted := asked.(checks := 1, prompts := 1);
      JourneyIsSound(w, otp, Typed, Some(w.prompt(0).value), prompted);
      assert Sound(w, otp, k.(logins := k.logins + 1), e);
      OneMoreAttempt(w, otp, k, first, e);
    } else {
      LastAttempt(w, otp, k, first, e.(attempts := [first] + e.attempts));
    }
  }

  lemma RegeneratingIsSound(w: World, k: Tally, first: Attempt)
    requires first.stage.FirstVault? && AskedBefore(FirstVault, None, k) && FromItsSource(w, None, first)
    requires first.reply == w.replies(k.logins) && RejectsCode(first.reply)
    ensures var e := Regenerate(w, first.code, k.(logins := k.logins + 1));
            Sound(w, None, k, e.(attempts := [first] + e.attempts))
    decreases 2, 3
  {
    hide Journey, AskUser;
    var asked := Tally(2, 2, 0, 0);
    match w.vault(1)
    case Ok(Some(renewed)) =>
      if Some(renewed) == first.code {
        AskingIsSound(w, None, k, first, GeneratedRejected, asked);
      } else {
        JourneyIsSound(w, None, SecondVault, Some(renewed), asked);
        OneMoreAttempt(w, None, k, first, Journey(w, SecondVault, Some(renewed), asked));
      }
    case Ok(None) => AskingIsSound(w, None, k, first, GeneratedRejected, asked);
    case Err(e) => AskingIsSound(w, None, k, first, RefreshFailed(e), asked);
  }

  lemma GeneratingIsSound(w: World, first: Attempt)
    requires first == Try(Bare, None, w.replies(0)) && AsksForCode(first.reply)
    ensures var e := AfterRefusal(w, Bare, None, first.reply.error, Tally(1, 0, 0, 0));
            Sound(w, None, NOTHING_ASKED, e.(attempts := [first] + e.attempts))
    decreases 3, 2
  {
    hide Journey, AskUser;
    var asked := Tally(1, 1, 0, 0);
    match w.vault(0)
    case Ok(Some(generated)) =>
      JourneyIsSound(w, None, FirstVault, Some(generated), asked);
      OneMoreAttempt(w, None, NOTHING_ASKED, first, Journey(w, FirstVault, Some(generated), asked));
    case Ok(None) => AskingIsSound(w, None, NOTHING_ASKED, first, NoCodeSource, asked);
    case Err(e) => AskingIsSound(w, None, NOTHING_ASKED, first, VaultFailed(e), asked);
  }

  lemma JourneyIsSound(w: World, otp: Option<string>, stage: Stage, code: Option<string>, k: Tally)
    requires AskedBefore(stage, otp, k)
    requires FromItsSource(w, otp, Try(stage, code, w.replies(k.logins)))
    ensures Sound(w, otp, k, Journey(w, stage, code, k))
    ensures Journey(w, stage, code, k).attempts[0] == Try(stage, code, w.replies(k.logins))
    decreases Rank(stage), 1
  {
    hide AskUser, Regenerate, Sound, Chained;
    var first := Try(stage, code, w.replies(k.logins));
    var asked := k.(logins := k.logins + 1);
    if first.reply.Refused? && stage.Bare? && AsksForCode(first.reply) {
      GeneratingIsSound(w, first);
    } else if first.reply.Refused? && RejectsCode(first.reply) {
      match stage
      case Bare => AskingIsSound(w, otp, k, first, Server(first.reply.error), asked);
      case Supplied => AskingIsSound(w, otp, k, first, SuppliedRejected, asked);
      case FirstVault => RegeneratingIsSound(w, k, first);
      case SecondVault => AskingIsSound(w, otp, k, first, GeneratedRejected, asked);
      case Typed => LastAttempt(w, otp, k, first, Journey(w, stage, code, k));
    } else {
      LastAttempt(w, otp, k, first, Journey(w, stage, code, k));
    }
  }

  // ---- What every login keeps ----

  function Stages(attempts: seq<Attempt>): seq<Stage> {
    seq(|attempts|, i requires 0 <= i < |attempts| => attempts[i].stage)
  }

  /** The only histories: an explicit code may be followed by a typed one; without one, up to two
      generated codes may come before a typed one. */
  predicate IsHistory(stages: seq<Stage>) {
    || stages in {[Supplied], [Supplied, Typed], [Bare], [Bare, Typed]}
    || stages in {[Bare, FirstVault], [Bare, FirstVault, Typed]}
    || stages in {[Bare, FirstVault, SecondVault], [Bare, FirstVault, SecondVault, Typed]}
  }

  /** A chain cannot be longer than its first stage allows. */
  lemma ChainIsHistory(w: World, attempts: seq<Attempt>)
    requires |attempts| > 0 && Chained(w, attempts) && (attempts[0].stage.Bare? || attempts[0].stage.Supplied?)
    ensures IsHistory(Stages(attempts))
  {
    hide RejectsCode, AsksForCode;
    assert |attempts| > 1 ==> MayFollow(w, attempts[0], attempts[1]);
    assert |attempts| > 2 ==> MayFollow(w, attempts[1], attempts[2]);
    assert |attempts| > 3 ==> MayFollow(w, attempts[2], attempts[3]);
    assert |attempts| > 4 ==> MayFollow(w, attempts[3], attempts[4]);
    var s := Stages(attempts);
    assert |s| == 1 ==> s == [s[0]];
    assert |s| == 2 ==> s == [s[0], s[1]];
    assert |s| == 3 ==> s == [s[0], s[1], s[2]];
    assert |s| == 4 ==> s == [s[0], s[1], s[2], s[3]];
  }

  /** Whatever the server, the vault and the terminal answer: the whole run is sound and its history
      is one of the eight. */
  lemma EveryLoginIsSound(w: World, otp: Option<string>)
    ensures Sound(w, otp, NOTHING_ASKED, Whole(w, otp))
    ensures IsHistory(Stages(Whole(w, otp).attempts))
    ensures Stages(Whole(w, otp).attempts)[0] == FirstStage(otp)
  {
    hide Journey;
    JourneyIsSound(w, otp, FirstStage(otp), otp, NOTHING_ASKED);
    ChainIsHistory(w, Whole(w, otp).attempts);
  }

  /** At most four logins, two looks into the vault and one prompt; two, none and one when a code was
      given. */
  lemma LoginIsBounded(w: World, otp: Option<string>)
    ensures var e := Whole(w, otp);
      && 1 <= |e.attempts| == e.asked.logins <= (if otp.Some? then 2 else 4)
      && e.asked.vaultReads <= (if otp.Some? then 0 else 2)
      && e.asked.prompts <= 1
  {
    hide Journey;
    EveryLoginIsSound(w, otp);
    var stages := Stages(Whole(w, otp).attempts);
    assert |stages| == |Whole(w, otp).attempts|;
  }

  /** A refused code goes out again only if a user typed it, and nothing is tried after that. */
  lemma NothingIsResent(w: World, otp: Option<string>, i: nat)
    requires 0 < i < |Whole(w, otp).attempts|
    ensures var a, b := Whole(w, otp).attempts[i - 1], Whole(w, otp).attempts[i];
      && a.reply.Refused? && (a.code == b.code ==> b.stage.Typed?)
      && (b.stage.Typed? ==> i == |Whole(w, otp).attempts| - 1)
  {
    hide Journey;
    EveryLoginIsSound(w, otp);
    var all := Whole(w, otp).attempts;
    assert MayFollow(w, all[i - 1], all[i]);
    if i + 1 < |all| { assert MayFollow(w, all[i], all[i + 1]); }
  }

  /** The code of a refused attempt. */
  function CodeOf(a: Attempt): Option<int>
    requires a.reply.Refused?
  {
    a.reply.error.code
  }

  /** The number of the answer decides what comes next: 403 and 406 send a bare login to the vault, 404 sends
      the first vault code back to it, and only where the vault does not help a user is asked. */
  lemma AnswerDecidesWhatFollows(w: World, otp: Option<string>, i: nat)
    requires i < |Whole(w, otp).attempts| && Whole(w, otp).attempts[i].reply.Refused?
    ensures var e := Whole(w, otp);
            var a, followed := e.attempts[i], i + 1 < |e.attempts|;
            var required := CodeOf(a) == Some(403) || CodeOf(a) == Some(406);
            var rejected := CodeOf(a) == Some(404);
            var typed := w.terminal(0) && w.prompt(0).Ok?;
      && (a.stage.Bare? && required && VaultHelps(w) ==>
            followed && e.attempts[i + 1].stage.FirstVault? && e.attempts[i + 1].code == w.vault(0).value)
      && (a.stage.FirstVault? && rejected && VaultRenews(w, a.code) ==>
            followed && e.attempts[i + 1].stage.SecondVault? && e.attempts[i + 1].code == w.vault(1).value)
      && (a.stage.Bare? && required && !VaultHelps(w) ==> followed == typed)
      && (!a.stage.Typed? && rejected && !(a.stage.FirstVault? && VaultRenews(w, a.code)) ==> followed == typed)
      && (!(a.stage.Bare? && required) && !(!a.stage.Typed? && rejected) ==> !followed)
  {
    hide Journey;
    EveryLoginIsSound(w, otp);
    var all := Whole(w, otp).attempts;
    assert FromItsSource(w, otp, all[i]);
    if i + 1 < |all| {
      assert MayFollow(w, all[i], all[i + 1]) && FromItsSource(w, otp, all[i + 1]);
    }
  }

  /** Why a login ends with this refusal when nobody typed a code for it. */
  function WithoutUser(w: World, last: Attempt): LoginError
    requires last.reply.Refused?
  {
    match last.stage
    case Bare =>
      if CodeOf(last) == Some(404) then Server(last.reply.error)
      else if w.vault(0).Err? then VaultFailed(w.vault(0).error) else NoCodeSource
    case Supplied => SuppliedRejected
    case Typed => SuppliedRejected
    case FirstVault => if w.vault(1).Err? then RefreshFailed(w.vault(1).error) else GeneratedRejected
    case SecondVault => GeneratedRejected
  }

  /** How a failed login ends, by the number of its last answer: 403 and 406 after a code went out say that one
      is still required, a typed code that meets 404 was wrong, any other number is the server's own failure. Where
      a user could have helped, it is the prompt that failed, or the reason there was no code to begin with. */
  lemma AnswerDecidesTheFailure(w: World, otp: Option<string>)
    requires Whole(w, otp).failure.Some?
    ensures var e := Whole(w, otp);
            var last := e.attempts[|e.attempts| - 1];
            last.reply.Refused? &&
            var required := CodeOf(last) == Some(403) || CodeOf(last) == Some(406);
            var rejected := CodeOf(last) == Some(404);
      && (required && !last.stage.Bare? ==> e.failure == Some(StillRequired(last.reply.error)))
      && (rejected && last.stage.Typed? ==> e.failure == Some(SuppliedRejected))
      && (!required && !rejected ==> e.failure == Some(Server(last.reply.error)))
      && ((required && last.stage.Bare?) || (rejected && !last.stage.Typed?) ==>
            if w.terminal(0) then w.prompt(0).Err? && e.failure == Some(PromptFailed(w.prompt(0).error))
            else e.failure == Some(WithoutUser(w, last)))
  {
    hide Journey;
    EveryLoginIsSound(w, otp);
    var all := Whole(w, otp).attempts;
    var last := all[|all| - 1];
    assert Explains(w, last, Whole(w, otp).failure.value);
  }

  /** No login is ever made with the code marked both as typed by a user and as generated by the
      vault, and the marks tell truly where it came from. */
  lemma MarksAreExclusive(w: World, otp: Option<string>, i: nat)
    requires i < |Whole(w, otp).attempts|
    ensures var a := Whole(w, otp).attempts[i];
      && !(a.prompted && a.generated)
      && (a.prompted ==> a.code.Some? && w.prompt(0) == Ok(a.code.value))
      && (a.generated ==> a.code.Some? && (w.vault(0) == Ok(a.code) || w.vault(1) == Ok(a.code)))
      && (!a.prompted && !a.generated ==> a.code == otp)
  {
    hide Journey;
    EveryLoginIsSound(w, otp);
    assert FromItsSource(w, otp, Whole(w, otp).attempts[i]);
  }

  /** A login succeeds exactly when the server accepts some attempt, and that attempt is the last. */
  lemma SuccessIsAcceptance(w: World, otp: Option<string>)
    ensures var e := Whole(w, otp);
      && (e.failure.None? <==> exists a <- e.attempts :: a.reply.Accepted?)
      && (forall i | 0 <= i < |e.attempts| - 1 :: e.attempts[i].reply.Refused?)
  {
    hide Journey;
    EveryLoginIsSound(w, otp);
    var e := Whole(w, otp);
    forall i | 0 <= i < |e.attempts| - 1 ensures e.attempts[i].reply.Refused? {
      assert MayFollow(w, e.attempts[i], e.attempts[i + 1]);
    }
    assert e.attempts[|e.attempts| - 1] in e.attempts;
  }

  /** With nobody at the terminal nobody is asked, and no code is used that was typed. */
  lemma UnattendedAsksNobody(w: World, otp: Option<string>)
    requires !w.terminal(0)
    ensures Typed !in Stages(Whole(w, otp).attempts)
    ensures Whole(w, otp).failure.Some? ==> !Whole(w, otp).failure.value.PromptFailed?
  {
    hide Journey;
    EveryLoginIsSound(w, otp);
    var all := Whole(w, otp).attempts;
    forall i | 0 <= i < |all| ensures !all[i].stage.Typed? {
      assert FromItsSource(w, otp, all[i]);
    }
  }

  /** The bounds are reached: a server that keeps rejecting, a vault whose code changes, a user. */
  lemma BoundsAreReached()
    ensures exists w: World :: Whole(w, None).asked == Tally(4, 2, 1, 1)
    ensures exists w: World :: Whole(w, Some("1")).asked == Tally(2, 0, 1, 1)
  {
    var refusals := (n: nat) =>
      Refused(ServerError(Some(if n == 0 then CODE_REQUIRED else CODE_REJECTED), ""));
    var w := World(refusals, n => Ok(Some(if n == 0 then "1" else "2")), _ => true, _ => Ok("3"));
    var fourth := Tally(3, 2, 1, 1);
    assert Journey(w, Typed, Some("3"), fourth).asked == Tally(4, 2, 1, 1);
    assert Journey(w, SecondVault, Some("2"), Tally(2, 2, 0, 0)).asked == Tally(4, 2, 1, 1);
    assert "1" != "2";
    assert Journey(w, FirstVault, Some("1"), Tally(1, 1, 0, 0)).asked == Tally(4, 2, 1, 1);
    assert Whole(w, None).asked == Tally(4, 2, 1, 1);
    var v := w.(replies := n => Refused(ServerError(Some(CODE_REJECTED), "")));
    assert Journey(v, Typed, Some("3"), Tally(1, 0, 1, 1)).asked == Tally(2, 0, 1, 1);
    assert Whole(v, Some("1")).asked == Tally(2, 0, 1, 1);
  }
}

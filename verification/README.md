# A verified model of the sync engine's bookkeeping

The engine copies a local tree to a Synology Drive folder, one way. This project models the parts
of it that decide what may be touched, what was lost and what was counted, and proves what those
parts are for.

| file | part |
|---|---|
| `LogDelivery.dfy`, `LogOutcomes.dfy` | remote log delivery: many enqueuers, one bounded channel, one worker that may fail or panic, flush and shutdown, the loss report; and which outcome each state of the sink forces |
| `SourceWalk.dfy`, `Scan.dfy`, `WalkOutcome.dfy` | the walk of the source tree under a scope and an entry budget |
| `TreeWalk.dfy` | what a walk and a scan find, told from the tree by path |
| `Collisions.dfy`, `ScopedScan.dfy` | the pass that takes out names equal under folding, and the scan as a whole |
| `Inventory.dfy`, `Diagnostics.dfy` | withholding a path, and the hashing diagnostic |
| `Ledger.dfy`, `LedgerRaces.dfy` | the progress ledger, and its shared handles in every interleaving |
| `RemotePath.dfy`, `Portability.dfy`, `Batch.dfy`, `Deletions.dfy` | the remote path algebra, the names and paths it accepts, batch selection and validation, deletion preflight |
| `PercentText.dfy`, `RotatingLog.dfy` | the truncating percent-encoder (escapes of section 2.1 of RFC 3986) and the rotating log file |
| `Login.dfy` | the login retry loop |
| `Recorder.dfy` | the throttled progress record |
| `Strings.dfy`, `Ordered.dfy`, `Counting.dfy`, `Bytes.dfy`, `Wrappers.dfy` | string order and path prefixes, ordered keys and stable sorting, counting in maps, bytes, options and results |

How the parts are modelled:

- Code that one thread runs, or that runs under a lock, is a class or a method with loops, proved
  against a function or predicate; what the source promises is then proved of that function.
- Code that several threads run at once is a state machine whose step is one atomic operation. Its
  theorems are about every list of actions, so about every interleaving. A step that does not apply
  leaves the state alone.
- The file system, the server, the vault, the terminal, the clock and the hash are parameters. An
  adversary who answers after seeing the questions is covered by functions from the question's
  number to its answer, because the code that asks is deterministic.
- Paths are texts. The prefix test `upper + "/"` is written as the source writes it and proved to be
  the strict prefix test on components.

Main results: the loss report is exact in every reachable state and never saturates; an
acknowledged flush is a barrier; every enqueue ends as the sink's state demands, and none that begins
on a closed sink goes uncounted; a complete scan holds exactly what the tree holds and nothing keeps
out; a scoped walk is the full walk restricted; a budgeted walk is a
prefix of the unbudgeted one; a finished scan is determined by the tree, and nothing in it shares a
fold with, or is shielded by, anything else; the ledger's counters are exact at every lock release and
each operation is counted once; batch validation accepts exactly the job lists with disjoint write
sets; deletion preflight succeeds exactly on safe plans; encoded text decodes to the input or to its
longest fitting prefix; the log files hold a suffix of all lines; the login loop is a walk through five
stages with tight bounds.

Two properties hold only under a condition, which is proved exact:

- Taking a path relative to a root and joining it again gives the path back exactly when the path is
  not the root followed by a lone slash and Drive clients can hold it (`RemotePath.JoinOfRelative`).
  `src/path.rs:95-105` accepts paths of both kinds; `RemotePath.LoneSlashMapsToRoot` and
  `RemotePath.UnportableNameIsMapped` give one of each.
- No outcome of hashing leaves a file of an inventory unaccounted for exactly when no file lies beneath
  a file still to be hashed (`Diagnostics.AccountedExactlyWhen`, with an inventory that loses a file in
  `Diagnostics.FileBeneathAFileIsLost`). What a scan hands over always meets it
  (`Diagnostics.ScanLeavesFilesBare`).

`dafny verify dfyconfig.toml` checks the whole project.

## Model

| member | source | states |
|---|---|---|
| LogDelivery.StepKeepsInv | src/observability.rs:2265-2476 | every atomic step of an enqueue, a control call, the worker, its exit guard and the receiver's end keeps the counters equal to the calls they stand for, the worker's progress equal to the channel's prefix, and every answer earned |
| LogDelivery.ReportIsExact | src/observability.rs:2178-2200 | in every reachable state `handled <= accepted`, and the report is the events refused plus, once the worker is gone, those it never finished and the calls still between counting and sending; with no enqueue in progress the last number is zero |
| LogDelivery.RacingReportIsExact | src/observability.rs:2182-2191 | the four loads of the report may lie anywhere in a run: the subtraction never saturates and a report that saw the exit counts exactly the losses at its first load, the unfinished events at its last and the calls in the window |
| LogDelivery.NoLossIsSilent | src/observability.rs:2265-2307 | by the stage a call ended in (`LogOutcomes` says which stage the sink forces): a finished enqueue reports an error exactly when the event was not sent (required delivery) or when the sender was already taken (best effort); an early stop names the first failure in channel order |
| LogDelivery.RunsJustifyStops | src/observability.rs:2276-2280 | in every run an enqueue stops early only in required mode and for the failure recorded first |
| LogDelivery.AcknowledgementIsBarrier | src/observability.rs:2328-2357 | an acknowledged flush or shutdown had every event ahead of its request attempted, and its verdict is the first failure among them in channel order, if any |
| LogDelivery.FlushCoversEarlierEvents | src/observability.rs:2328-2357 | for callers: when a flush or shutdown that began after an enqueue returned its event as sent comes back acknowledged, that event was attempted, and if it failed the verdict is an error |
| LogDelivery.SuccessfulFlushDelivered | src/observability.rs:2309-2383 | with required delivery, a flush that succeeds means every event sent before it began was delivered |
| LogDelivery.RunsAreTraceable | src/observability.rs:2265-2357 | in every run an event reported as sent is in the channel, and every request in the channel belongs to a call that was made |
| LogDelivery.FirstFailureIsFirst | src/observability.rs:2366-2373 | the first failure is a failure with none before it, and there is none exactly when nothing failed |
| LogDelivery.WorkerStepEarnsAnswers | src/observability.rs:2441-2475 | each step of the worker acknowledges only with the verdict on the events ahead of the request |
| LogDelivery.RunsExtend | src/observability.rs:2166-2200 | along every run the channel, the results and the losses only grow, and a finished call, the first failure and the exit mark are final |
| LogDelivery.SendSucceedsAfterExitMark | src/observability.rs:2435-2440 | a run in which a send succeeds after the exit mark because the guard is dropped before the receiver, and the report still counts the event |
| LogOutcomes.ClosedSinkCountsTheLoss | src/observability.rs:2265-2274 | a call that begins on a closed sink can only end lost as closed, whatever runs beside it: its event never enters the channel, the loss is in the report, and the caller sees an error exactly with required delivery |
| LogOutcomes.OutcomeHadACause | src/observability.rs:2265-2307 | every ending had a deciding step at which the sink's state demanded it: lost as closed only on a closed sink, as full only with the channel full, as disconnected only without a receiver, sent only with room, stopped early only for the recorded failure, without sender only when it was taken |
| LogOutcomes.FailureStopsLaterCalls | src/observability.rs:2275-2279 | with required delivery a call that begins after a failure was recorded never sends: it stops early with that failure, or finds the sink closed |
| LogOutcomes.ClosedByShutdownOrDrop | src/observability.rs:2316-2317 | the sink is closed only by a shutdown that was called or by dropping it |
| LogOutcomes.ShutdownCloses | src/observability.rs:2316-2326 | once a shutdown has returned the sink is closed, and unless an earlier one was under way its sender is gone |
| LogOutcomes.ClosedSinkAnswersAtOnce | src/observability.rs:2309-2319 | on a closed sink a flush answers that it is shut down and a shutdown succeeds, at once and in every continuation |
| LogOutcomes.AnswersAreGrounded | src/observability.rs:2328-2357 | a control call answers that the worker is gone only without a receiver, that the sink is shut down only when it is, and gives up only by its deadline |
| LogOutcomes.EventIsFinished | src/observability.rs:2443-2456 | the worker takes an event and handles it once, counts a failure and keeps the first; a panic ends worker and receiver with the event unfinished |
| LogOutcomes.RequestIsAnswered | src/observability.rs:2457-2473 | a request is answered with the first failure so far; after a flush the worker goes on, after a shutdown it ends |
| LogOutcomes.IdleWorker | src/observability.rs:2441-2476 | with nothing queued the worker waits, and ends once every sender is gone |
| LogOutcomes.FailureCountIsExact | src/observability.rs:2385-2390 | between messages and after the worker's end the failures reported are those of all results |
| LogOutcomes.NothingBehindShutdown | src/observability.rs:2465-2473 | in every run a shutdown the worker took is the last message it took, and no event behind it is attempted |
| SourceWalk.ScopedNodeEvents | src/local.rs:1334-1341 | below an entry, the scoped walk does exactly what the full walk does about relevant paths, in the same order |
| SourceWalk.ScopedChildEvents | src/local.rs:1269-1499 | the same for any listing of a folder's children |
| SourceWalk.OutsideIsIrrelevant | src/plan.rs:98-125 | nothing at or beneath a path outside the scope and off its ancestor chain is in scope or on the chain, so pruning there loses nothing |
| Scan.ScanOutput.Insert | src/local.rs:725-732 | records an entry while it fits, and otherwise marks the walk incomplete |
| Scan.ScanOutput.Skip | src/local.rs:738-745 | the same for a skip, on the same budget |
| Scan.ScanOutput.WithholdUnreadable | src/local.rs:1206-1227 | takes out exactly the folder and what lies beneath it and adds its deferral |
| Scan.ScanDir | src/local.rs:1230-1269 | for any order of the listing and any budget, the in-place walk leaves what the sequence of events leaves when played under the budget |
| Scan.ScanEntry | src/local.rs:1317-1496 | one child is judged in the source's order of checks and plays exactly its own events, which `TreeWalk.WalkEventMeans` tells from the tree |
| WalkOutcome.WalkIsOrderlyAndRooted | src/local.rs:1230-1499 | no path is recorded twice, a withheld folder was kept just before with nothing beneath it, and every folder above a recorded path was kept earlier |
| WalkOutcome.GatheredIsClosedAndDisjoint | src/local.rs:1427-1449 | what a walk gathers is closed under parent folders, and no path is both an entry and a skip |
| WalkOutcome.OneSkipPerPath | src/local.rs:1230-1499 | a walk skips a path at most once |
| WalkOutcome.BudgetIsACut | src/local.rs:717-750 | playing a walk under a budget is gathering its longest prefix that fits, and the result is complete exactly when the whole walk fits |
| WalkOutcome.RecordedIsCharged | src/local.rs:747-749 | entries plus skips are exactly the charged records, also after a folder was withheld |
| WalkOutcome.CutKeepsWhatFits | src/local.rs:717-750 | the prefix holds as many charged records as the budget allows, and stops only before one that does not fit |
| TreeWalk.ScopeMeans | src/plan.rs:98-125 | a path is in scope exactly when the scope is empty or its components start the path's, and on the way to it exactly when its components start the scope's |
| TreeWalk.WalkEventMeans | src/local.rs:1230-1499 | the walk does something about a path exactly when the tree holds a node there, no folder above it is DSM-managed, ignored or refused, and the node itself calls for it |
| TreeWalk.EntryIsInTheTree | src/local.rs:1427-1496 | without a budget a path is an entry, with this kind and size, exactly when the tree holds such a file in scope or such a folder in scope or on the way to it, it can be listed, and nothing at or above it is managed, ignored or refused |
| TreeWalk.SkipIsInTheTree | src/local.rs:1347-1475 | a path is skipped for a reason exactly when the walk comes to it and it is unclassified, refused, unreadable, special, an untimed file in scope or a folder that cannot be listed, with that reason |
| TreeWalk.ExclusionIsInTheTree | src/local.rs:1327-1369 | a path is reported as excluded exactly when that was asked for and the walk comes to it in scope and finds it managed or ignored |
| TreeWalk.ScanFindsTheTree | src/local.rs:783-839 | a complete scan carries exactly the entries the tree holds with nothing in the way, each as the tree has it, less those that clash with another path of the tree, themselves or through a folder above; and exactly the excluded paths |
| TreeWalk.ScanSkipsTheRest | src/local.rs:1577-1638 | its skips, in path order, are every skip of the tree with its reason and one for each topmost clash, which names the other path, and no others |
| Inventory.KeysBeneath | src/local.rs:234-246 | the ordered range scan finds exactly the keys beneath a path |
| Inventory.PrefixRun | src/local.rs:234-246 | the keys from the first not below `path/` while the prefix holds are all the keys with that prefix |
| Inventory.LocalInventory.Withhold | src/local.rs:233-260 | exactly the path and its descendants leave the entries, one skip is added, and the skips stay sorted |
| Collisions.PortableFoldMeetsContract | src/path.rs:175-186 | the ASCII shortcut is sound: with tables that leave slashes alone and lower ASCII names the ASCII way, the folding distributes over `/` |
| Collisions.FoldedAncestor | src/path.rs:178-180 | every path above a folded path is the fold of a path above the original |
| Collisions.FindColliding | src/local.rs:1577-1617 | the passes over the sorted folds find exactly the topmost colliding spellings, each once, with its rival |
| Collisions.SkippedByFold | src/local.rs:1585-1589 | the index holds, for each fold, the last skip with that fold and no other |
| Collisions.RotationFindsRival | src/local.rs:1604-1614 | the index arithmetic over the spellings finds the skipped spelling of the fold, or else the least greater entry of equal fold, or the least of all after the last |
| Collisions.RivalCollides | src/local.rs:1592-1614 | the rival of a colliding entry is a different path of equal fold that the walk carried or skipped |
| Collisions.DroppedSeesAncestors | src/local.rs:1600-1603 | because sorted folds visit ancestors first, the folds dropped so far hold an ancestor exactly when some ancestor collides |
| Collisions.AncestorsAreCuts | src/local.rs:1640-1647 | cutting a folded path at its slashes finds exactly the paths above it |
| Collisions.SurvivorsHaveOwnFolds | src/local.rs:1577-1638 | no two remaining entries share a fold |
| Collisions.SurvivorsAreUnshielded | src/local.rs:1573-1576 | on a parent-closed walk no remaining entry, and no folder above it, has the fold of a skipped path |
| Collisions.SurvivorsAreClosed | src/local.rs:1618-1632 | what remains is still closed under parent folders |
| Collisions.SurvivorsShrinkWithRivals | src/local.rs:1592-1632 | more entries and skips to collide with can only take more entries out |
| ScopedScan.SkipPortableCaseCollisions | src/local.rs:1577-1638 | exactly the entries at or beneath a colliding spelling leave, and each topmost one is reported once, naming its rival |
| ScopedScan.ReportsNameACollision | src/local.rs:1573-1576 | every report names a different path of equal fold, carried or skipped by the walk |
| ScopedScan.ScanScoped | src/local.rs:783-839 | the scan fails only when the source root cannot be listed; otherwise its entries are the survivors of the walk cut at the budget, and its skips are the walk's and the reports, sorted; `TreeWalk.ScanFindsTheTree` and `TreeWalk.ScanSkipsTheRest` tell both from the tree |
| ScopedScan.BudgetBoundsTheScan | src/local.rs:717-750 | a scan never holds more records than its budget, the walk behind it is exactly the longest prefix of the unbudgeted walk that fits, and the scan is complete exactly when that prefix is all of it |
| ScopedScan.ScopedEntriesAreTheRelevantOnes | src/local.rs:766-775 | without a budget, the scoped walk's entries are exactly the full walk's entries in scope or folders on the ancestor chain; its skips are among the full walk's, and those in scope are the same |
| ScopedScan.UnseenIsOutside | src/local.rs:777-779 | whatever the full walk records and the scoped walk does not lies outside the scope |
| ScopedScan.ScopedScanAgainstFull | src/local.rs:777-782 | after both collision passes the scoped result still holds every relevant entry of the full one, and for anything extra an entry of the scoped walk at or above it collides with a path outside the scope |
| ScopedScan.ScanIsDetermined | src/local.rs:752-763 | two scans of one tree are equal, entries, skips with reasons and places, exclusions and completeness, whatever order the folders were listed in |
| ScopedScan.ScanIsSafe | src/local.rs:783-839 | in a finished scan no two entries share a fold, no entry is also skipped, and no entry or folder above one has the fold of any skipped path, reported collisions included |
| ScopedScan.ReportsReplaceEntries | src/local.rs:1618-1637 | the collision pass never adds more reports than it removes entries, so it cannot break the budget |
| Ledger.ProgressTracker.constructor | src/progress.rs:204-219 | a new tracker's books are empty and add up, and its ids start at one |
| Ledger.ProgressTracker.Start | src/progress.rs:223-243 | an id not in use becomes active with no bytes and no attempt, nothing else moved, and the books still add up |
| Ledger.ProgressTracker.BeginAttempt | src/progress.rs:278-287 | exactly the attempt's bytes leave the logical count and none the wire count, the attempt is counted, and the books still add up; an unknown id changes nothing; the update answered is `AttemptStarted` with the operation as it now stands, and an unknown id is the one error |
| Ledger.ProgressTracker.ResetAttempt | src/progress.rs:289-297 | exactly the attempt's bytes leave the logical count and none the wire count, the attempt number stays, and the books still add up; the update answered is `AttemptReset` with the operation as it now stands |
| Ledger.ProgressTracker.Advance | src/progress.rs:299-314 | all of the delta is accepted or the operation's total is reached, both byte counters grow by exactly what the attempt grows by, nothing else moves, and the books still add up; the update answered is `Advanced` with the operation as it now stands |
| Ledger.ProgressTracker.Finish | src/progress.rs:316-349 | the operation leaves and counts once as completed or failed, the logical count ends with its whole total or without its attempt, and the books still add up; the answer is an error exactly for an id not active, else `Succeeded` with every byte or `Failed` with none, of the operation as it was |
| Ledger.AdvanceAddsUp | src/progress.rs:299-314 | advancing keeps every attempt within its total and the counters equal to succeeded totals plus active attempts, for any delta |
| Ledger.BeginAddsUp | src/progress.rs:278-287 | a rollback never saturates: the attempt's bytes are among the logical bytes, and afterwards the wire count exceeds the logical one by all rolled-back bytes |
| Ledger.FinishAddsUp | src/progress.rs:316-349 | after a finish started is still active plus completed plus failed, and both byte counters are exact |
| LedgerRaces.StepKeepsInv | src/progress.rs:394-455 | cloning, the check of `finished`, the locked call behind it, the claiming swap, its locked finish and the last drop keep counters, active map and flags in agreement, in any order |
| LedgerRaces.CountersAreExact | src/progress.rs:278-385 | at every lock release of every interleaving the logical bytes are those of succeeded plus active operations, the wire bytes that plus all rolled-back bytes, each attempt is within its total and no subtraction saturates |
| LedgerRaces.OverIsFinal | src/progress.rs:439-455 | no step on an operation that is over, however late, changes its outcome or the books |
| LedgerRaces.OverInEveryContinuation | src/progress.rs:394-455 | an operation that is over stays over with the same outcome in every continuation |
| LedgerRaces.ClaimsAlwaysSettle | src/progress.rs:439-446 | the caller that wins the swap always finds its operation active, so its finish succeeds with its own outcome |
| LedgerRaces.AllIsCountedOnce | src/progress.rs:394-400 | when all handles are gone nothing is active, completed plus failed equals started, files likewise, and the logical bytes are those of what succeeded |
| LedgerRaces.LockedStepMeans | src/progress.rs:278-314 | a locked call that reaches an operation in progress gives its attempt up and counts one, gives it up, or accepts part of the delta; one that comes too late changes nothing |
| LedgerRaces.SettleStepMeans | src/progress.rs:316-349 | settling closes the operation with the outcome claimed |
| LedgerRaces.FirstClaimCounts | src/progress.rs:394-446 | only the first claim is kept, the last drop claims a failure exactly when nobody claimed, and no call passes the check once something is claimed |
| LedgerRaces.InsertStepMeans | src/progress.rs:223-243 | inserting makes a new id active with no bytes and no attempt and hands out one handle |
| RemotePath.RelativeOfJoin | src/path.rs:82-105 | taking relative undoes joining |
| RemotePath.JoinOfRelative | src/path.rs:82-105 | for every path that has a relative one, joining gives the path back exactly when it is not the root followed by a lone slash and has no portability issue |
| RemotePath.LoneSlashMapsToRoot | src/path.rs:95-105 | a path of the first excepted kind: it maps to the empty relative path, which joins to the root |
| RemotePath.UnportableNameIsMapped | src/path.rs:82-105 | a path of the second excepted kind: a listed name that `relative` maps and no join accepts |
| RemotePath.AncestorsAreAccepted | src/path.rs:82-93 | an accepted join means every folder on the way is accepted |
| RemotePath.ParseOfJoin | src/path.rs:24-65 | a joined path parses as a root exactly when the join is accepted and the relative path names no DSM-managed folder |
| RemotePath.JoinComposes | src/path.rs:82-93 | joining below a joined root is joining the composed path |
| RemotePath.ParseMeans | src/path.rs:24-65 | parsing accepts exactly the slash-led clean texts with plain, unmanaged components and no portability issue, which `Portability.AcceptedRoot` tells in lengths and characters |
| RemotePath.ValidateRelativeMeans | src/path.rs:112-131 | a non-empty relative path is valid exactly when its text is clean and every component plain |
| RemotePath.DrivePathIssueOfJoin | src/path.rs:188-256 | shortening a path at a slash introduces no portability issue |
| Portability.PortableMeans | src/path.rs:188-256 | a path has no issue exactly when it has at most 247 characters and each component at most 255 characters and UTF-8 bytes, no leading `~`, no control character, none of the seven signs, no final dot or space, and no device name before its first dot in any ASCII case |
| Portability.ReportedIssue | src/path.rs:188-256 | the issue reported is that of the whole length, or the first rule broken by the first component that breaks any |
| Portability.ManagedNameMeans | src/path.rs:6-18 | the eleven names DSM keeps for itself |
| Portability.AcceptedRoot | src/path.rs:24-65 | a root is accepted exactly when it starts with a slash, keeps these rules on its characters and components, and no component is empty, a dot, two dots or DSM-managed |
| Portability.RefusedRoot | src/path.rs:24-65 | a root is refused for the first of what is wrong with it, in the source's order |
| RemotePath.OverlapIsSharedWrite | src/batch.rs:487-491 | two roots pass as independent exactly when no path can be written below both |
| RemotePath.OverlapIsComponentPrefix | src/path.rs:107-109 | the string test is component containment: roots overlap exactly when one's components are a prefix of the other's |
| Batch.NewCatalog | src/batch.rs:110-124 | an empty batch or the least repeated name is refused; otherwise the jobs are sorted |
| Batch.CatalogHoldsItsJobs | src/batch.rs:110-124 | an accepted catalog holds exactly the given jobs under strictly ascending names |
| Batch.CatalogRefusal | src/batch.rs:110-124 | a catalog is refused exactly when there are no jobs or two share a name, and then the least such name is named |
| Batch.CatalogIsOrderBlind | src/batch.rs:477-485 | a catalog, and any error, is the same for every order of the jobs |
| Batch.FromSelected | src/batch.rs:185-204 | the sorted jobs are accepted when pairwise independent, else the first conflict in row order is named |
| Batch.AcceptedMeansDisjointWrites | src/batch.rs:171-204 | validation accepts exactly the job lists whose write sets are pairwise disjoint on each endpoint, whoever logs in |
| Batch.AnswerHoldsTheJobs | src/batch.rs:185-204 | an accepted batch holds the given jobs, each as often as given, in name order; a refusal names two conflicting places of it |
| Batch.ValidationIsOrderBlind | src/batch.rs:185-204 | validation, and the conflict it names, is the same for every order of distinctly named jobs |
| Batch.FindJob | src/batch.rs:159-164 | halving the range finds the job of a name or shows there is none |
| Batch.LookUp | src/batch.rs:157-166 | looking sorted names up one by one gives the catalog filtered by name, or the least unknown name |
| Batch.Select | src/batch.rs:136-168 | selection is filtering the catalog by name and validating; the least repeated or unknown name is refused |
| Batch.ChosenIsFilter | src/batch.rs:134-135 | a job is chosen exactly when the catalog holds it and its name was asked for |
| Batch.SelectionRefusal | src/batch.rs:145-166 | a selection is refused when empty, for the least name asked for twice, or for the least name no job has; an accepted one holds exactly the jobs asked for |
| Batch.SelectionIsOrderBlind | src/batch.rs:134-168 | a selection, and any error, is the same for every order of the names |
| Deletions.ConfiguredLimit | src/batch.rs:210-219 | the checked sum of the deleting jobs' limits, or overflow exactly when it exceeds `usize` |
| Deletions.PlannedFitsConfigured | src/batch.rs:276-285 | counts within their limits never outgrow the configured total, so the overflow branch inside the loop cannot be taken |
| Deletions.PreflightDeletions | src/batch.rs:224-312 | the loops, sorts and maps compute the specified answer, with its errors in their order |
| Deletions.CheckEveryJob | src/batch.rs:261-291 | the first job in order with a problem decides the error; otherwise the total is the sum over all jobs |
| Deletions.PreflightIsExact | src/batch.rs:221-312 | preflight succeeds exactly when each job has one plan within its limit, the job limits add up to a `usize` and the plans together fit the aggregate limit; then the total is the sum of all plans, the effective limit is the configured total or a smaller given limit, the given limit is returned, each job has its own maximum, and remaining is the difference |
| Deletions.PreflightNamesTheProblem | src/batch.rs:233-300 | preflight fails with the first thing wrong, told on the jobs and plans: the least name planned twice, the least name of no job, an overflow, the first job without a plan or with a count it may not have and the numbers, or the sum over the given limit |
| Deletions.PreflightIsOrderBlind | src/batch.rs:233-258 | preflight, and any error, is the same for every order of the plans |
| PercentText.DecodeOfEncode | src/observability.rs:620-623 | decoding an untruncated text gives back the input bytes |
| PercentText.EscapeMeans | src/observability.rs:632-646 | ASCII letters, digits and `. _ - / : ,` are written as themselves, every other byte as `%` and two upper-case digits, high half first |
| PercentText.PlainTextStays | src/observability.rs:632-646 | exactly the texts of such characters are their own encoding |
| PercentText.LastEscapeStartsWithPercent | src/observability.rs:652-657 | a `%` three bytes before the end is exactly the start of the last escape, so truncation never splits one |
| PercentText.MarkTruncated | src/observability.rs:650-660 | dropping escapes leaves the encoding of the longest proper prefix that leaves room for the marker |
| PercentText.PercentEncoded | src/observability.rs:623-665 | the text is the whole encoding when it fits, else the longest fitting prefix's encoding and the marker, in place in an array of the capacity |
| PercentText.TextIsUnambiguous | src/observability.rs:620-622 | a final marker occurs exactly when the text was truncated, and what precedes it decodes to the longest fitting proper prefix |
| RotatingLog.RotatingFile.Rotate | src/observability.rs:2053-2092 | every backup moves up by one, the one at the last place is gone, the current file is at `.1`; with no backups the file is truncated |
| RotatingLog.RotatingFile.WriteLine | src/observability.rs:2022-2037 | backups from oldest to newest and the current file stay a suffix of all lines written, only the oldest backup of a full set is lost, backups are contiguous, `length` is the real size and each file is within the limit or one line |
| RotatingLog.ShiftKeepsBacklog | src/observability.rs:2062-2089 | a rotation keeps the order of the lines and loses exactly the oldest backup of a full set |
| RotatingLog.RotatingFile.LengthDecidesOverflow | src/observability.rs:2023-2026 | the kept length answers whether the next line overflows the file |
| RotatingLog.OverflowMeans | src/observability.rs:2022-2026 | under any limit below the counter's end a line overflows exactly when the file is not empty and would have more bytes than the limit with it, newlines included |
| Login.Authenticate | src/credentials.rs:243-359 | the loop with its flags ends exactly as the walk through the stages does: same outcome, same attempts with the flags they were made under, same questions asked |
| Login.MarksAreExclusive | src/credentials.rs:258-342 | no login is made with both `prompted` and `generated` set, and the one that is set tells truly whether a user or the vault gave the code |
| Login.ReplaceIfChanged | src/credentials.rs:361-367 | the code is replaced exactly when the fresh one differs |
| Login.EveryLoginIsSound | src/credentials.rs:243-359 | every attempt's code comes from the source its stage names, each attempt follows the one before for a stated reason, every failure is explained by the last reply and the answers, and the history is one of eight |
| Login.AnswerDecidesWhatFollows | src/credentials.rs:262-356 | by number: 403 and 406 send a bare login to the vault, 404 sends the first vault code back to it, a user is asked exactly where the vault does not help, and nothing follows any other answer |
| Login.AnswerDecidesTheFailure | src/credentials.rs:262-356 | by number, which failure ends a login: still required, rejected, the server's own, a failed prompt, or why there was no code when nobody can type one |
| Login.LoginIsBounded | src/credentials.rs:258-359 | at most four logins, two vault reads and one prompt; two, none and one when a code was given |
| Login.BoundsAreReached | src/credentials.rs:258-359 | there are servers, vaults and users for which both bounds are met exactly |
| Login.NothingIsResent | src/credentials.rs:294-306 | the code just refused goes out again only if a user typed it, and nothing is tried after a typed code |
| Login.SuccessIsAcceptance | src/credentials.rs:261-263 | the login succeeds exactly when some attempt was accepted, and that attempt was the last |
| Login.UnattendedAsksNobody | src/credentials.rs:270-294 | with nobody at the terminal no typed code is used and no prompt fails |
| Recorder.ProgressRecorder.Phase | src/progress_record.rs:120-133 | entering another known phase publishes at once and restarts the count; an unknown id or the current phase changes nothing; publications stay throttled and in some phase |
| Recorder.ProgressRecorder.Add | src/progress_record.rs:144-167 | the count grows, and a publication of the new count at the present instant follows exactly when the count passed a multiple of the trigger, a phase was entered and the interval is over; publications stay throttled |
| Recorder.StepKeepsInv | src/progress_record.rs:120-167 | every atomic step of counting and of a phase change keeps the throttle and the chain of additions |
| Recorder.TicksAreThrottled | src/progress_record.rs:159-166 | in every interleaving any two publications driven by counting are at least the interval apart, and none is for no phase |
| Recorder.WakesAtMultiples | src/progress_record.rs:149-153 | the remainder test passes exactly when the addition passes a multiple of the trigger |
| Recorder.EachMultipleWakesOnce | src/progress_record.rs:149-153 | in every interleaving each multiple of the trigger since the reset is passed by exactly one addition, which woke its worker |
| Recorder.ClockReadsAreRare | src/progress_record.rs:48-54 | the wake-ups never exceed the count divided by the trigger |
| Recorder.PublicationIsDue | src/progress_record.rs:144-167 | in any state a woken worker publishes its total at the present instant exactly when 2 000 ms have passed since the last publication |
| Recorder.UndisturbedCount | src/progress_record.rs:144-167 | a count with nothing beside it has the effect of `ProgressRecorder.Add` |
| Recorder.UndisturbedPhase | src/progress_record.rs:120-133 | a phase change with nothing beside it has the effect of `ProgressRecorder.Phase` |
| Diagnostics.PopulateDeferring | src/local.rs:1013-1037 | every file that hashes gets its digest in place, the failing ones are listed once in path order, and it is cancelled exactly when a check or a hash says so |
| Diagnostics.FinishDiagnostic | src/source_diagnostics.rs:58-121 | the report is about what remains after every failing file was withheld, the skips are the old ones and one deferral per failing file, still sorted, and the guard on missing digests never fires |
| Diagnostics.EachFileIsAccountedOnce | src/source_diagnostics.rs:64-83 | in what is left of a scan's inventory, each original file either remains as it was with its own digest or the one hashed and no skip names it, or could not be hashed, is no entry, and exactly one skip names it with its reason |
| Diagnostics.AccountedExactlyWhen | src/source_diagnostics.rs:64-83 | for any inventory, no outcome of hashing leaves a file neither remaining nor deferred, exactly when no file lies beneath a file still to be hashed |
| Diagnostics.FileBeneathAFileIsLost | src/source_diagnostics.rs:73-81 | an inventory and a hashing that lose a file beneath a failing one |
| Diagnostics.NothingElseIsLost | src/source_diagnostics.rs:86-110 | folders all remain as they were, and remaining files plus deferrals are the original files |
| Diagnostics.AddUp | src/source_diagnostics.rs:86-103 | the counters are the sizes of the sets of files, folders and digested files, and it fails exactly when the bytes exceed `u64` |
| Diagnostics.ScanLeavesFilesBare | src/local.rs:783-839 | a scan's inventory holds nothing beneath a file and no entry it also skips, and its skips are sorted |
| Strings.LessMeans | src/batch.rs:477-485 | texts compare by their first difference, a proper prefix first |
| Strings.BeneathIsComponentPrefix | src/plan.rs:95-108 | the `/`-delimited prefix test is exactly the strict prefix test on components |

## Left out

- Memory ordering and counter wrap-around in the concurrent parts: steps are sequentially consistent and their counters unbounded; poisoned locks are not modelled.
- Waiting times: a control call may give up at any moment it waits, which allows more runs than the source's deadlines do; joining the worker thread and the HTTP transport are not part of this model.
- The remote sink, the progress handles and the concurrent recorder are state machines on values, not objects: aliasing of the shared atomics is not captured. `Ledger.ProgressTracker` and `Recorder.ProgressRecorder` model the locked and sequential bodies as objects.
- LogDelivery.AcknowledgementIsBarrier: is about the worker's verdict; a best-effort sink returns success whatever that verdict is (`src/observability.rs:2375-2383`), so only required delivery has `LogDelivery.SuccessfulFlushDelivered`.
- RotatingLog.RotatingFile.WriteLine: starts from an empty log set; log files left by an earlier process, and I/O failures in the middle of a rotation, are not modelled.
- PercentText.PercentEncoded: capacities are at most 255 bytes, as the source asserts for its one-byte length.
- Login.Authenticate: the vault, code generation and prompts are answers; message texts are error constructors.
- Diagnostics.FinishDiagnostic: cancellation before one entry is a function of the entry's path; an inventory as it stands after a cancelled run is not described.
- Recorder: the order of published phases, which a count may race, and the files behind a publication.
- File names that are not UTF-8 (`src/local.rs:1274-1316`): their lossy spelling can equal a real entry's path.
- Metadata, reparse points, attributes and snapshots around hashing: each child of a folder comes already classified, and a file that vanishes or cannot be read is one of the classes.
- The reason text of a refused name; the walk's other reasons are kept.
- Cancellation of the walk, which returns no partial inventory, and the checks on the source root before the walk.
- The ignore rules, Unicode tables, hash functions, URL normalisation and the validation of job and user names: uninterpreted, or done before the modelled code is called.
- The unchecked parse of a scope (`src/plan.rs:63-85`): the scope is any text, and the theorems hold for every one.
- Throughput, rendering and formatting of progress and logs, configuration tables and command lines: flat code that would add only easy members.

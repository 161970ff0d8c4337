# Verified models of the ReqSys governance automations

ReqSys is a set of automations around a delivery pipeline: cloud flows that keep Planner and an Excel memory in step,
gates that admit commands and compare regulatory snapshots, and collectors that pair events, bound histories and raise
alerts. This project models the parts of it that carry state, order or arithmetic, and proves what they promise, for
every input, every run and every reachable state.

| file | what it models |
|---|---|
| `SyncModel.dfy` | the four stores of the Planner/Excel synchronisation and the effect of one Foreach item of each flow |
| `FlowActions.dfy` | the flow definitions as action trees, their interpreter, the live stores updated in place, the definition checker |
| `SyncProtocol.dfy` | runs of both flows with people editing at any time: invariants, no lost update |
| `SyncConflict.dfy` | conflicts are stable under both flows and visible to the health flow |
| `SyncSettling.dfy` | quiescence, what a success leaves behind, when marks and columns are put right, failed commands |
| `SyncEffects.dfy` | what one item writes, column by column, and what no flow ever touches |
| `SyncRecord.dfy` | memory and history in agreement: columns spell signatures, events replay to rows |
| `Admission.dfy` | each event deciding alone from its own read of the comment list; one admission per burst |
| `FixedWindow.dfy` | aligned time windows and the early-stopping page loop |
| `Recovery.dfy` | first-in-first-out pairing of views with recoveries, per context |
| `BoundedHistory.dfy`, `EvidenceLedger.dfy` | incremental bounded histories against their offline meaning |
| `TablePart.dfy`, `WorkbookCheck.dfy` | the OOXML table part (ECMA-376 Part 1, section 18.5.1.2) printed and read back character by character, and the package check |
| `Bacen.dfy` | evidence validity, status derivation and the regression gate |
| `FlowCompletion.dfy`, `AlertState.dfy` | completion monitor and the deduplicated alert state fed by it |
| `Remediation.dfy` | guarded transitions with an audit log |
| `DiagramStore.dfy` | versioned diagram files with a manifest |
| `OrderStatistics.dfy`, `FailurePareto.dfy` | percentiles and the failure ranking |
| `Prelude.dfy`, `Text.dfy`, `Lists.dfy` | options and results; decimals, separators and joins; search, filter, stable sort |

## How the models are built

* One Foreach item of a flow is one step. The check on the re-read task and the write that follows are separate
  connector calls; nothing is claimed about an edit that lands between them. A step carries the task or command as the
  flow listed it, however old, so overlapping passes are covered. People may replace Planner, the command table and the
  human columns at any point; they do not delete or reorder memory rows.
* Writes to Excel succeed when the row exists; a call to Planner may be acknowledged, rejected or time out, and in the
  last two cases may or may not have reached Planner. Planner ids hold no bar.
* Clocks, hashes, signatures, character classes and generated content are parameters. An assumption such as "no two of
  these identifiers have one digest" is a `requires` of the lemma that needs it.
* Raised exceptions are `Result` values with the error that comes first.

## Where the code and its intent differ

* The Excel-to-Planner flow never writes `PlannerStatus`, although the blueprint has the column hold the current
  state. It is right after a success exactly under `SyncSettling.StatusColumnAfterSuccess`; a wrong value stays until
  the task moves and the Planner flow copies it afresh (`SyncSettling.StatusColumnRepairedExactly`).
* A CONFLITO mark can outlive its cause: a Planner pass takes it off exactly when no command waits and the task has
  moved (`SyncSettling.MarkStaysExactly`, with a run in `SyncSettling.MarkOutlivesCause`).
* An update that reached Planner although the call failed or timed out becomes a conflict that no flow step resolves,
  exactly when it left another signature; otherwise the command can be retried
  (`SyncSettling.FailureBecomesConflictExactly`, `SyncConflict.ConflictPersists`).
* `Aplicar_somente_sem_conflito` depends on an action of the enclosing scope (line 539 of the flow file). The model
  starts each nested scope with the statuses of the scope around it, so the edge is already satisfied; the definition
  checker does not look at `runAfter` at all (`FlowActions.RunAfterIgnored`).
* The canonical comment id of a suppressed command need not belong to an admitted one
  (`Admission.CanonicalAdmittedExactly`, with a case in `Admission.CanonicalMayBeSuppressed`).
* A header ending in a free-standing `name=` is misread (`TablePart.HeadersRoundTripExactly`), and so is a table name
  ending in `displayName=` (`TablePart.NameRoundTrip`).
* The order of the evidence matters when a malformed and a valid piece meet (`Bacen.OrderIndependentExactly`).
* `append_bounded` bounds the history exactly for positive limits (`BoundedHistory.LimitBoundsExactly`): zero keeps
  everything, a negative limit nothing. It agrees with the offline history exactly when no two keys share an epoch
  (`BoundedHistory.OnlineEqualsOfflineExactly`).
* The monitor orders events by the text of `updated_at` but reads ages as times. The two agree exactly under
  `FlowCompletion.NewestAlwaysKeptExactly`; texts with and without a fraction or with `Z` and `+00:00` do not
  (`FlowCompletion.TextOrderMisleads`).
* A completed execution may have skipped every earlier position (`FlowCompletion.CompletionMeansAllExactly`), and when
  no commit is expected an event without one counts as matching (`FlowCompletion.CompletionShowsCommitExactly`).
* A closing is meant to rest on a later execution, but the check only refuses the item's own run: readiness of an
  earlier run, or of no run, is accepted (`Remediation.EarlierOrNoRunCloses`). The exact conditions are
  `Remediation.ClosingIsLaterExactly` for the check and `Remediation.AlwaysLaterExactly` for whole runs.
* A record that closes nothing repeats the run that qualified the last closing (`Remediation.RecordsRepeatLastClosing`).
* A second overwrite of one diagram within a second can lose a copy; `DiagramStore.KeepsTextsExactly` says exactly
  when (`DiagramStore.SameSecondLosesContent` is a case).

## Model

| member | source | states |
|---|---|---|
| `FlowActions.PlannerBodyMeaning` | backend/copilot_memory_powerautomate_complete.py:141-326 | Running the action tree of the Planner-to-Excel Foreach body (nested Ifs, `runAfter` edges) on one task has exactly the effect of the item step `PlannerItem`, for every state and task |
| `FlowActions.CommandBodyMeaning` | backend/copilot_memory_powerautomate_complete.py:329-563 | The same for the Excel-to-Planner body and `CommandItem`, including failed and timed-out updates, missing rows and the actions that are then skipped |
| `FlowActions.PlannerFlowMeaning` | backend/copilot_memory_powerautomate_complete.py:312-326 | A whole Foreach over a listed plan is the composition of the item steps |
| `FlowActions.CommandFlowMeaning` | backend/copilot_memory_powerautomate_complete.py:548-563 | A whole Foreach over listed commands is the composition of the item steps |
| `FlowActions.HealthFlowMeaning` | backend/copilot_memory_powerautomate_complete.py:566-612 | The health flow changes no store and reaches Terminate (Failed) exactly when some memory row is CONFLITO or ERRO |
| `FlowActions.Tenant.Execute` | backend/copilot_memory_powerautomate_complete.py:61-97 | Each connector call and Compose, done in place on the four stores, has the effect and the status the interpreter gives it |
| `FlowActions.Tenant.SyncFromPlanner` | backend/copilot_memory_powerautomate_complete.py:141-326 | A run of the flow on the live stores leaves them as the pass over the listed tasks prescribes |
| `FlowActions.Tenant.SyncFromExcel` | backend/copilot_memory_powerautomate_complete.py:329-563 | A run of the flow on the live stores leaves them as the pass over the listed commands prescribes |
| `FlowActions.WalkReachesEverything` | backend/copilot_memory_powerautomate_complete.py:653-661 | The recursive walk meets every action at every depth: the tree holds only allowed connectors if and only if all walked actions do |
| `FlowActions.ValidateDefinition` | backend/copilot_memory_powerautomate_complete.py:664-689 | The checker's error list is the header errors followed by those of all walked actions, in order |
| `FlowActions.HeaderErrorsExactly` | backend/copilot_memory_powerautomate_complete.py:664-689 | Each header error is reported if and only if its rule is broken: schema, either parameter, trigger, actions, or a forbidden name somewhere in the text |
| `FlowActions.ConnectorErrorsExactly` | backend/copilot_memory_powerautomate_complete.py:676-688 | A connector error is reported if and only if some walked connector is neither of the two allowed ones, or has no operation |
| `FlowActions.AcceptedExactly` | backend/copilot_memory_powerautomate_complete.py:664-689 | No error is reported if and only if schema, parameters, trigger and actions are there, the forbidden names do not occur, and every connector at every depth is allowed with an operation |
| `FlowActions.GeneratedFlowsAllowed` | backend/copilot_memory_powerautomate_complete.py:630-650 | All three generated flows pass the connector rules |
| `FlowActions.GeneratedFlowsCallTheirOperations` | backend/copilot_memory_powerautomate_complete.py:141-612 | In all three generated flows every connector action calls the operation whose effect it is interpreted as |
| `FlowActions.OuterDependencyAccepted` | backend/copilot_memory_powerautomate_complete.py:539-546 | The checker accepts a branch whose `runAfter` names an action of the enclosing scope |
| `FlowActions.RunAfterIgnored` | backend/copilot_memory_powerautomate_complete.py:653-689 | Any two trees that differ only in their `runAfter` edges have the same connector errors |
| `SyncProtocol.StepInvariant` | backend/copilot_memory_powerautomate_complete.py:141-563 | One step of either flow, or any edit by people, keeps the invariant (one row per task, ids and applied signatures belonging to that task and recorded in the history) and only appends to the history |
| `SyncProtocol.RunInvariant` | backend/copilot_memory_powerautomate_complete.py:141-563 | Every state of every run satisfies the invariant |
| `SyncProtocol.HistoryGrows` | backend/copilot_memory_powerautomate_complete.py:109-138 | Along every run the history is append-only |
| `SyncProtocol.SignatureInjective` | backend/copilot_memory_powerautomate_complete.py:100-106 | The signature determines id, title, percentage and deadline when those other than the title hold no bar, whatever bars the title holds |
| `SyncProtocol.TaskSignatureInjective` | backend/copilot_memory_powerautomate_complete.py:100-106 | Two task states with one signature agree on all fields, up to the defaults put for null |
| `SyncProtocol.BarInDueBreaksInjectivity` | backend/copilot_memory_powerautomate_complete.py:357-366 | A bar in the deadline gives two different task states one signature |
| `SyncProtocol.WriteIsGuarded` | backend/copilot_memory_powerautomate_complete.py:517-541 | A command item that changes Planner names its row's own task, found that row's applied signature on the task just re-read, and changes that task only |
| `SyncProtocol.NoLostUpdate` | backend/copilot_memory_powerautomate_complete.py:329-563 | In every run, only a command item changes Planner, only when the task still carries the signature its memory row last applied, and that overwritten signature is in the history then and at every later time |
| `SyncProtocol.ForeignCommandIsInert` | backend/copilot_memory_powerautomate_complete.py:517-541 | A command naming a task other than its memory row's own never writes to Planner, to any row content or to any pending flag |
| `SyncEffects.HumanColumnsAreSafe` | backend/copilot_memory_powerautomate_complete.py:141-563 | In every run rows keep place, key and task, and between two edits by people no sequence of flow steps changes a human column of an existing row |
| `SyncEffects.SignatureText` | backend/copilot_memory_powerautomate_complete.py:100-106 | Task and command signatures are the four fields joined by bars, with the empty text and 0 for null |
| `SyncEffects.KnownTaskEffects` | backend/copilot_memory_powerautomate_complete.py:180-301 | A task at its applied signature changes nothing; one that moved while a command waits changes the row's mark, adds one event, and nothing else |
| `SyncEffects.BlockedCommandEffects` | backend/copilot_memory_powerautomate_complete.py:368-417 | A command whose guard fails leaves Planner alone; per case, the one command row, memory mark and event that change, column by column |
| `SyncEffects.GuardedCommandEffects` | backend/copilot_memory_powerautomate_complete.py:425-541 | A command whose guard holds: when Planner changes and to what, and every column written on success, on a vanished command row, and on failure |
| `SyncConflict.ConflictPersists` | backend/copilot_memory_powerautomate_complete.py:216-238 | While a command waits and Planner differs from the applied signature, no sequence of flow steps, however out of date their listings, changes the task, the version, the applied signature, the stored Planner columns, the human columns or the command's request |
| `SyncConflict.PlannerPassMarks` | backend/copilot_memory_powerautomate_complete.py:276-301 | A Planner pass that lists the task leaves the row CONFLITO |
| `SyncConflict.CommandPassMarks` | backend/copilot_memory_powerautomate_complete.py:380-417 | A command pass that lists the command leaves the row CONFLITO, whatever the other commands do |
| `SyncConflict.ConflictVisible` | backend/copilot_memory_powerautomate_complete.py:566-612 | After a pass of either flow over a fresh listing, the row is CONFLITO and the health flow fails |
| `SyncSettling.OnePassQuiesces` | backend/copilot_memory_powerautomate_complete.py:302-326 | With no pending command, one Planner pass reaches a state that every further pass of either flow leaves exactly as it is, history included |
| `SyncSettling.SuccessSettles` | backend/copilot_memory_powerautomate_complete.py:446-488 | An acknowledged command is cleared and no other command or memory row changes; its row takes the command's title, percentage and deadline and keeps keys, version, status column and human columns, and matches Planner if and only if the percentage cell prints as the integer it denotes |
| `SyncSettling.StatusColumnAfterSuccess` | backend/copilot_memory_powerautomate_complete.py:461-480 | After a success PlannerStatus is right if and only if it already was right for the new percentage, because the flow does not write it |
| `SyncSettling.StatusColumnStaysStale` | backend/copilot_memory_powerautomate_complete.py:276-301 | A PlannerStatus left wrong that way survives every Planner pass over any plan that lists the task as the command left it |
| `SyncSettling.StatusColumnRepairedExactly` | backend/copilot_memory_powerautomate_complete.py:264-301 | After a pass that lists the task, PlannerStatus is right if and only if the task had moved away from the applied signature or the column was right before |
| `SyncSettling.MarkStaysExactly` | backend/copilot_memory_powerautomate_complete.py:276-301 | After a Planner pass over any listing a CONFLITO row is still CONFLITO if and only if a command waits for its task or every listed state of the task has the applied signature |
| `SyncSettling.CommandClearsMarkExactly` | backend/copilot_memory_powerautomate_complete.py:517-541 | A command item takes the mark off a row if and only if the command names the row and its guard holds |
| `SyncSettling.MarkOutlivesCause` | backend/copilot_memory_powerautomate_complete.py:276-301 | A run that ends CONFLITO with no command waiting and the task at its applied signature; the next Planner pass changes nothing |
| `SyncSettling.FailureBecomesConflictExactly` | backend/copilot_memory_powerautomate_complete.py:489-516 | A guarded command that does not succeed becomes a conflict if and only if its update reached Planner and left another signature; in every other case it still waits and its guard still holds, so it can be retried |
| `SyncRecord.HistoryReplaysMemory` | backend/copilot_memory_powerautomate_complete.py:109-138 | In every run the stored Planner columns of each row spell its applied signature, and replaying the events of the row gives its version and applied signature |
| `SyncRecord.SyncedRowShowsTask` | backend/copilot_memory_powerautomate_complete.py:461-480 | A row that applied the task's present signature shows the task's title, percentage and deadline, when no bar occurs in ids and deadlines |
| `SyncRecord.CopyShowsTask` | backend/copilot_memory_powerautomate_complete.py:171-301 | A task without a row, or one that moved with no command waiting, is copied into its row under the next version with one event stating it; human columns of an existing row and all other rows stay |
| `Admission.Decide` | scripts/authorized_teams_e2e_admission.py:42-107 | The loop computes the verdict: the first failing check with its error, or the decision |
| `Admission.EventAcceptedExactly` | scripts/authorized_teams_e2e_admission.py:50-74 | An event passes if and only if sha, window, command, action, issue, author, body, id and timestamp all fit; each refusal is given exactly when its check is the first to fail |
| `Admission.LineRefusedExactly` | scripts/authorized_teams_e2e_admission.py:78-91 | Each refusal of a line is given exactly when its check is the first to fail |
| `Admission.VerdictExactly` | scripts/authorized_teams_e2e_admission.py:76-107 | For an accepted event and list there is a decision if and only if the event's id stands on exactly one line; it admits if and only if no smaller id lies within the window before the event, and names the smallest such id, or the event's own |
| `Admission.CountedOnceExactly` | scripts/authorized_teams_e2e_admission.py:86-97 | The count is one if and only if exactly one line carries the id |
| `Admission.ReadAcceptedExactly` | scripts/authorized_teams_e2e_admission.py:78-91 | A read is usable if and only if every line is an owner's dated comment and the event's own line carries the event's instant |
| `Admission.OlderIdsMeaning` | scripts/authorized_teams_e2e_admission.py:76-94 | The collected ids are exactly those of earlier comments inside the window |
| `Admission.DecisionFromAnyRead` | scripts/authorized_teams_e2e_admission.py:42-107 | For an ordered log and any read that holds the entry once, in any list order and with any later comments, the verdict is a decision: admitted if and only if the entry heads its burst, with the first entry inside its window as canonical id |
| `Admission.ReadIsAccepted` | scripts/authorized_teams_e2e_admission.py:78-91 | A read of authorised comments passes every check on its lines |
| `Admission.OneAdmissionPerBurst` | scripts/authorized_teams_e2e_admission.py:92-100 | Of every burst exactly the first command is admitted |
| `Admission.AdmissionsFarApart` | scripts/authorized_teams_e2e_admission.py:92-100 | Two admitted commands are more than the window apart |
| `Admission.BeforeBurst` | scripts/authorized_teams_e2e_admission.py:92-94 | Everything before a burst's head is outside the window of every member |
| `Admission.FollowEndsAtHead` | scripts/authorized_teams_e2e_admission.py:99-103 | Following canonical ids terminates at the admitted head of the burst |
| `Admission.CanonicalAdmittedExactly` | scripts/authorized_teams_e2e_admission.py:99-103 | The canonical id names an admitted command if and only if the head of the burst is itself within the window |
| `Admission.CanonicalMayBeSuppressed` | scripts/authorized_teams_e2e_admission.py:99-103 | Three commands a hundred seconds apart under a window of 120: the third names the second, which is suppressed itself |
| `FixedWindow.BoundsExactly` | scripts/build_ci_fixed_window_analytics.py:22-43 | Bounds are refused if and only if the anchor is no minute; otherwise they enclose exactly the window of the latest aligned end that has settled |
| `FixedWindow.EndExactly` | scripts/build_ci_fixed_window_analytics.py:34-37 | For any settling time, negative or long, the end stands on the anchor minute, in the hour of as_of if anchor and settling time have passed in it and in the hour before otherwise |
| `FixedWindow.WindowCohortExactly` | scripts/build_ci_fixed_window_analytics.py:41-43 | A run is in the cohort of the window if and only if it is dated and lies in the window, its end excluded |
| `FixedWindow.EndIsUnique` | scripts/build_ci_fixed_window_analytics.py:22-38 | With 0 <= settle <= 60 - anchor, the window end is the one aligned instant in (as_of - settle - 60 min, as_of - settle] |
| `FixedWindow.SettledExactly` | scripts/build_ci_fixed_window_analytics.py:34-37 | For any settling time, the end has settled if and only if as_of is far enough into its hour |
| `FixedWindow.PolicySettlesExactly` | scripts/build_ci_fixed_window_analytics.py:34-37 | A policy honours its settling time at every instant if and only if settle plus anchor fit in the hour |
| `FixedWindow.EndIsMonotone` | scripts/build_ci_fixed_window_analytics.py:22-38 | A later clock never gives an earlier window |
| `FixedWindow.EveryAlignedEndOccurs` | scripts/build_ci_fixed_window_analytics.py:22-38 | Every aligned instant is the end of some window |
| `FixedWindow.WindowsTileExactly` | scripts/build_ci_fixed_window_analytics.py:38-43 | Every instant lies in exactly one aligned half-open window if and only if windows last 60 minutes |
| `FixedWindow.FetchRunsForWindow` | scripts/build_ci_fixed_window_analytics.py:46-81 | The page loop collects exactly the pages up to the first one that stops it; `collection_complete` says exactly whether one did |
| `FixedWindow.StopsAtExactly` | scripts/build_ci_fixed_window_analytics.py:65-75 | A page stops the loop if and only if it is short or holds a run dated before the window |
| `FixedWindow.CompleteCollectionIsExact` | scripts/build_ci_fixed_window_analytics.py:46-109 | Over a newest-first list, a collection reported complete and then filtered to the window equals the whole list filtered |
| `FixedWindow.PagesCoverPrefix` | scripts/build_ci_fixed_window_analytics.py:56-63 | While new runs arrive between calls the pages still cover a prefix of the first list without a hole |
| `FixedWindow.ArrivalsLoseNothing` | scripts/build_ci_fixed_window_analytics.py:46-109 | A complete collection made during arrivals misses no run of the window that existed at the first call |
| `Recovery.Evaluate` | scripts/build_empty_state_recovery_trend.py:59-84 | The loop counts the dated views of the input, ends with the recoveries, queues and durations of the per-context pairing, and views equal recoveries plus views still waiting |
| `Recovery.ChronologicalExactly` | scripts/build_empty_state_recovery_trend.py:63-66 | The working order holds every dated event as often as it was given and no other, by instant, and the events of one instant in the order given |
| `Recovery.SameContextExactly` | scripts/build_empty_state_recovery_trend.py:68 | Two events share a context if and only if their contexts agree on the first eighty characters |
| `Recovery.FirstInFirstOut` | scripts/build_empty_state_recovery_trend.py:77-84 | In a context the i-th recovery is paired with the i-th view and the rest are the waiting ones |
| `Recovery.PairsAreLegal` | scripts/build_empty_state_recovery_trend.py:80-84 | Every pair joins a view to a later action of its context, and no action is used twice |
| `Recovery.DurationsNonNegative` | scripts/build_empty_state_recovery_trend.py:80-83 | Every duration is non-negative without the clamp, whatever the order of the input |
| `Recovery.GreedyIsOptimal` | scripts/build_empty_state_recovery_trend.py:67-84 | No pairing of actions with earlier views of their context has more pairs than the loop makes |
| `Recovery.GreedyIsAMatching` | scripts/build_empty_state_recovery_trend.py:67-84 | The loop's pairs of all contexts form such a pairing with exactly that many pairs |
| `BoundedHistory.KeyFixesEpoch` | scripts/build_runtime_executive_post_deploy_history.py:97-101 | Equal sample keys mean equal epochs |
| `BoundedHistory.SameKeyExactly` | scripts/build_runtime_executive_post_deploy_history.py:97-101 | Without bars in the texts, two keys are equal if and only if epoch, the three URLs and the state are |
| `BoundedHistory.OnlineEqualsOffline` | scripts/build_runtime_executive_post_deploy_history.py:104-109 | For limit >= 1 and keys separated by epoch, appending samples one at a time, repeats included, keeps the newest `limit` of all distinct keys ever seen, in epoch order |
| `BoundedHistory.KeptExactly` | scripts/build_runtime_executive_post_deploy_history.py:104-109 | A sample is in the history if and only if it was the first to arrive with its key and fewer than `limit` different epochs seen are later than its own |
| `BoundedHistory.OnlineEqualsOfflineExactly` | scripts/build_runtime_executive_post_deploy_history.py:104-109 | Over all sequences drawn from a pool of samples and all positive limits, online equals offline if and only if no two keys of the pool share an epoch |
| `BoundedHistory.DistinctHasAllKeys` | scripts/build_runtime_executive_post_deploy_history.py:104-107 | The distinct samples are samples and carry the keys of all of them |
| `BoundedHistory.DistinctExactly` | scripts/build_runtime_executive_post_deploy_history.py:104-107 | The distinct samples are exactly the first of each key |
| `BoundedHistory.SortedDistinct` | scripts/build_runtime_executive_post_deploy_history.py:108-109 | Sorted by epoch they are strictly increasing |
| `BoundedHistory.SharedEpochDependsOnArrival` | scripts/build_runtime_executive_post_deploy_history.py:104-109 | When two keys share an epoch, the order of arrival decides which one is kept |
| `BoundedHistory.AppendedLength` | scripts/build_runtime_executive_post_deploy_history.py:104-109 | The length after an append for every limit: a positive one bounds it, zero cuts nothing, a negative one drops that many of the oldest |
| `BoundedHistory.LimitBoundsExactly` | scripts/build_runtime_executive_post_deploy_history.py:109 | The limit bounds every history if and only if it is positive |
| `BoundedHistory.ZeroLimitKeepsEverything` | scripts/build_runtime_executive_post_deploy_history.py:109 | With limit 0 every new key makes the list longer |
| `BoundedHistory.NegativeLimitKeepsNothing` | scripts/build_runtime_executive_post_deploy_history.py:109 | With a negative limit every history built from samples is empty |
| `BoundedHistory.GapsTelescope` | scripts/build_runtime_executive_post_deploy_history.py:125-130 | The gaps between failures sum to the last minus the first |
| `BoundedHistory.MtbfIsSpanOverCount` | scripts/build_runtime_executive_post_deploy_history.py:125-130 | With fewer than two failing samples there is no mean gap; otherwise it is the span from the first to the last of them over their number less one, in hours |
| `EvidenceLedger.KeyInjective` | scripts/build_runtime_environment_evidence.py:49-51 | For the environments the record builder accepts, the key determines the run and the environment |
| `EvidenceLedger.AppendLedger` | scripts/build_runtime_environment_evidence.py:90-104 | The dictionary and order list spell the collapsed ledger, cut to ninety; the fallback for a missing key is never needed |
| `EvidenceLedger.CollapseExactly` | scripts/build_runtime_environment_evidence.py:93-103 | Any list, repeats included, collapses to the last item of each key, in the order in which the keys first appeared |
| `EvidenceLedger.CollapseOfUnique` | scripts/build_runtime_environment_evidence.py:96-100 | A ledger with unique keys is read back as it stands |
| `EvidenceLedger.AppendStep` | scripts/build_runtime_environment_evidence.py:90-104 | One append keeps keys unique and the bound, replaces a repeated key in place without moving any entry, otherwise puts the record last, and retains it |
| `EvidenceLedger.RunStaysBounded` | scripts/build_runtime_environment_evidence.py:90-104 | Every run of appends from the empty ledger stays bounded with unique keys and retains the record appended last |
| `EvidenceLedger.RetainedExactly` | scripts/build_runtime_environment_evidence.py:104 | From an arbitrary previous ledger the record is retained if and only if fewer than ninety distinct keys stand behind its own |
| `TablePart.Column` | backend/copilot_memory_simple_package.py:84-89 | The loop computes the bijective base-26 label |
| `TablePart.LabelDenotesColumn` | backend/copilot_memory_simple_package.py:84-89 | Decoding the label of column n gives n |
| `TablePart.EveryWordIsALabel` | backend/copilot_memory_simple_package.py:84-89 | Every word of letters is the label of exactly the column it denotes |
| `TablePart.RefDenotesHeaderCount` | backend/copilot_memory_simple_package.py:107-117 | In the printed part, the range attribute after the names ends in the column of the last header |
| `TablePart.EscapeMeaning` | backend/copilot_memory_simple_package.py:109-112 | Escaped text holds no angle bracket, keeps quotes, and equals the text exactly when nothing needed escaping |
| `TablePart.EscapeIsUndone` | backend/copilot_memory_simple_package.py:109-112 | Reading the three entities back gives the text |
| `TablePart.ReadElement` | backend/wsjf_workbook_package.py:102 | A column element whose value does not end in `name=` is read back as printed |
| `TablePart.MisreadElement` | backend/wsjf_workbook_package.py:102 | A value ending in a free-standing `name=` is read back with markup in it |
| `TablePart.ReadsEscapedHeaders` | backend/wsjf_workbook_package.py:102 | For quote-free headers, reading a printed table yields their escaped forms, in order and nothing else |
| `TablePart.HeadersRoundTripExactly` | backend/wsjf_workbook_package.py:93-103 | For headers without `&`, `<`, `>`, reading returns exactly the headers if and only if none holds a quote or ends in a free-standing `name=` |
| `TablePart.NameRoundTrip` | backend/wsjf_workbook_package.py:99 | For any table the reader finds the name that was printed if and only if it is not empty, holds no quote and does not end in `displayName=`, save for the one name ` displayName=` |
| `TablePart.FirstDisplayNameWins` | backend/wsjf_workbook_package.py:99 | In any text the first non-empty, quote-free displayName attribute is the table's name |
| `TablePart.PlainNameIsTheFallback` | backend/wsjf_workbook_package.py:99 | Without one it is the first such name attribute that does not continue a word |
| `TablePart.NamelessExactly` | backend/wsjf_workbook_package.py:99-101 | There is no name if and only if the text holds neither |
| `TablePart.TablesOfPackage` | backend/wsjf_workbook_package.py:93-103 | The reader's loop builds the index part by part, skipping parts that are no tables or have no name |
| `TablePart.IsTablePartExactly` | backend/wsjf_workbook_package.py:96 | A part counts as a table if and only if its name is xl/tables/ and .xml with anything between |
| `TablePart.WorkbookRoundTrip` | backend/copilot_memory_simple_package.py:158-235 | Reading a generated package returns exactly the tables written: each name with its headers, and no other name |
| `WorkbookCheck.ValidateWorkbook` | backend/wsjf_workbook_package.py:106-128 | The problems are exactly the missing parts, undeclared content types, missing table and missing columns; none is reported if and only if the package is acceptable |
| `WorkbookCheck.TypesDeclareParts` | backend/copilot_memory_simple_package.py:171-199 | The printed content-types part declares both property parts, for any number of tables |
| `WorkbookCheck.TypesDeclareTables` | backend/copilot_memory_simple_package.py:178-199 | It declares the worksheet and the table of every number, next to each other |
| `WorkbookCheck.GeneratedAcceptedExactly` | backend/wsjf_workbook_package.py:106-128 | A generated package is accepted if and only if one of its tables is the demand table with all its columns |
| `WorkbookCheck.CanonicalWorkbookAccepted` | backend/wsjf_workbook_package.py:63-65 | The canonical workbook passes its own check and is read back with its columns in order |
| `Bacen.ValidExactlyDuringValidity` | scripts/bacen_derived_status.py:42-88 | Evidence with the derived limits is valid exactly from its event for the validity days, and must be kept exactly for the retention days |
| `Bacen.LimitsCountFromEvent` | scripts/bacen_derived_status.py:29-49 | Both limits are whole days after the event, each present if and only if the policy names it; a negative number of days and a non-UTC event are refused |
| `Bacen.WellFormedExactly` | scripts/bacen_derived_status.py:52-70 | A record is well formed if and only if every rule holds, and each refusal is given exactly when its rule is the first broken |
| `Bacen.ShaExactly` | scripts/bacen_derived_status.py:64-66 | Sixty-four characters are accepted if and only if each is a hexadecimal digit of either case, or the ligature U+FB00, which case folding turns into two letters f |
| `Bacen.DerivedStatusExactly` | scripts/bacen_derived_status.py:91-138 | For each of the six statuses and each refusal, the exact condition under which it is given |
| `Bacen.EvidencedExactly` | scripts/bacen_derived_status.py:129-138 | With no malformed piece naming the obligation, it is evidenced if and only if it is judged completely implemented and some well-formed piece whose norm_uid is its uid covers the instant |
| `Bacen.OthersMakeNoDifference` | scripts/bacen_derived_status.py:132-134 | Removing every piece whose norm_uid is not the obligation's uid never changes a status |
| `Bacen.RegressionExactly` | scripts/bacen_gate_1_5.py:97-110 | A change regresses if and only if it enters or leaves nao_aplicavel or goes down the ladder of the other five |
| `Bacen.BlocksExactly` | scripts/bacen_gate_1_5.py:113-180 | The reason of a block: removed, then code changed, then entering or leaving nao_aplicavel, then down the ladder |
| `Bacen.FindValidEvidence` | scripts/bacen_derived_status.py:130-138 | The loop computes the search |
| `Bacen.FirstDecides` | scripts/bacen_derived_status.py:130-138 | The first piece that names the obligation and is malformed or covers the instant decides: its error, or found |
| `Bacen.SearchMeaning` | scripts/bacen_derived_status.py:130-138 | Without malformed evidence about the obligation the result is whether some piece about it covers the instant; with malformed and no covering piece it is an error |
| `Bacen.OrderIndependentExactly` | scripts/bacen_derived_status.py:130-138 | The outcome is the same for every order of the evidence if and only if the obligation does not have both a malformed and a valid piece |
| `Bacen.DerivationMonotone` | scripts/bacen_derived_status.py:101-138 | Adding evidence, in any order, with no malformed piece never gives a regressed status |
| `Bacen.DeriveSnapshot` | scripts/bacen_gate_1_5.py:83-94 | Succeeds if and only if every status derives, and then maps every obligation to its status; otherwise raises the first error in order |
| `Bacen.CompareSnapshots` | scripts/bacen_gate_1_5.py:113-180 | Lists exactly the obligations that block, with the reason and in order, and passes if and only if none does |
| `Bacen.GateReflexive` | scripts/bacen_gate_1_5.py:97-180 | A snapshot passes against itself |
| `Bacen.GateTransitive` | scripts/bacen_gate_1_5.py:97-180 | Passing composes |
| `Bacen.GateAntisymmetric` | scripts/bacen_gate_1_5.py:97-180 | Passing both ways forces the same uids, codes and derived statuses |
| `Bacen.SearchAfterInsertion` | scripts/bacen_derived_status.py:130-138 | Well-formed evidence put in anywhere leaves a search that succeeds succeeding, and a valid piece found |
| `Bacen.AdditiveHeadPasses` | scripts/bacen_gate_1_5.py:113-180 | A head that keeps the obligations and puts in well-formed evidence anywhere derives all of them and is blocked by none, even if the base held malformed evidence |
| `Bacen.ReorderedHeadPasses` | scripts/bacen_gate_1_5.py:113-180 | The same for evidence in any new order, when no piece of the head is malformed |
| `Bacen.MovingClockRegresses` | scripts/bacen_gate_1_5.py:113-120 | One obligation with one piece of evidence regresses between two instants, which is why both snapshots use one instant |
| `FlowCompletion.LatestByText` | scripts/build_flow_completion_monitor.py:37-40 | The entry kept for a position is one of its events, and none of its events has a greater `updated_at` text |
| `FlowCompletion.LastListedOfGreatestIsKept` | scripts/build_flow_completion_monitor.py:37-40 | Of the events of a position with the greatest text, the one listed last is kept |
| `FlowCompletion.NewestKeptExactly` | scripts/build_flow_completion_monitor.py:37-40 | The kept entries are the newest in time if and only if at every position the greatest text denotes the latest time |
| `FlowCompletion.NewestAlwaysKeptExactly` | scripts/build_flow_completion_monitor.py:37-40 | Every list of events stamped from a set of texts keeps its newest entries if and only if text order is time order on the set |
| `FlowCompletion.TextOrderMisleads` | scripts/build_flow_completion_monitor.py:37-40 | A success half a second after a failure, printed with a fraction and an offset, loses to the failure printed with Z |
| `FlowCompletion.RequiredPositionsMeaning` | scripts/build_flow_completion_monitor.py:27-33 | The positions are exactly the required stages of the required environments |
| `FlowCompletion.PositionsFollowEnvironments` | scripts/build_flow_completion_monitor.py:27-33 | Positions of an environment with a smaller order precede those of one with a larger order |
| `FlowCompletion.PositionsFollowStages` | scripts/build_flow_completion_monitor.py:27-33 | Within an environment, a stage with a smaller order precedes one with a larger order |
| `FlowCompletion.PositionsAreDistinct` | scripts/build_flow_completion_monitor.py:27-33 | With distinct environment names, and distinct stage names within each, every position occurs once |
| `FlowCompletion.StatusExactly` | scripts/build_flow_completion_monitor.py:63-74 | For each of the six labels, the exact condition under which it is given, with the age taken over the kept entries |
| `FlowCompletion.AgeOfAllEvents` | scripts/build_flow_completion_monitor.py:63 | When the newest entries are kept, that age is the age of all events |
| `FlowCompletion.BuildItem` | scripts/build_flow_completion_monitor.py:41-92 | The item is completed if and only if the final position has a kept event with status succeeded, non-empty evidence and the expected commit; it carries the status of the first matching rule, and ends its longest successful prefix at `last_completed` |
| `FlowCompletion.PrefixIsUnique` | scripts/build_flow_completion_monitor.py:49-55 | There is one longest successful prefix |
| `FlowCompletion.NextFollowsPrefixExactly` | scripts/build_flow_completion_monitor.py:57-61 | The look-up of the last position yields the end of the prefix if and only if that position does not occur earlier |
| `FlowCompletion.OpenItemPointsAfterPrefix` | scripts/build_flow_completion_monitor.py:49-61 | With distinct positions an open item expects the first position after its prefix, or nothing when all succeeded |
| `FlowCompletion.CompletionMaySkipPositions` | scripts/build_flow_completion_monitor.py:41-47 | An execution is completed on its final position and the expected commit alone, although no earlier position ever succeeded |
| `FlowCompletion.CompletionMeansAllExactly` | scripts/build_flow_completion_monitor.py:41-55 | Completion means that every position succeeded if and only if there is only one |
| `FlowCompletion.CompletionShowsCommitExactly` | scripts/build_flow_completion_monitor.py:42-47 | Completion always shows evidence, and shows a commit if and only if one is expected: with none expected, an event that names none counts |
| `FlowCompletion.BuildMonitor` | scripts/build_flow_completion_monitor.py:25-110 | One item per execution in order, the open ones listed apart; an error exactly when no position is required |
| `AlertState.SameFingerprintExactly` | scripts/build_flow_completion_alert_state.py:22-33 | Without bars in the fields and without hash collisions, fingerprints are equal if and only if execution, status, commit and the two expected texts are, a missing position reading as two empty texts |
| `AlertState.FingerprintIdentifies` | scripts/build_flow_completion_alert_state.py:22-33 | When expected environments have names, equal fingerprints also mean the same expected position, or none on both sides |
| `AlertState.BarInPositionCollides` | scripts/build_flow_completion_alert_state.py:22-33 | A bar in a position's name gives two situations one fingerprint, whatever the hash |
| `AlertState.BuildState` | scripts/build_flow_completion_alert_state.py:36-72 | The loop yields the alerting items, those whose fingerprint the previous state lacked, and the bounded history |
| `AlertState.StoredExactly` | scripts/build_flow_completion_alert_state.py:36-63 | After each report the state holds exactly its failed, blocked and stale items, and their fingerprints |
| `AlertState.NotifiedExactly` | scripts/build_flow_completion_alert_state.py:36-72 | In every run of reports an alert is notified if and only if its fingerprint is active now and was not in the previous report |
| `AlertState.NoRepeatWhileActive` | scripts/build_flow_completion_alert_state.py:48-49 | Between two notifications of one alert there is a report without it |
| `AlertState.ActiveWasNotified` | scripts/build_flow_completion_alert_state.py:48-49 | Every active alert was notified when its current stretch began |
| `AlertState.NotifiedOnce` | scripts/build_flow_completion_alert_state.py:41-49 | With unique fingerprints no alert is notified twice in one report |
| `AlertState.HistoryIsNewest` | scripts/build_flow_completion_alert_state.py:51-60 | The stored history is the newest 168 observations of the run |
| `Remediation.ApplyTransition` | scripts/apply_ux_remediation_transition.py:29-80 | Refusals in the order of the checks; otherwise the item updated field by field, every entry with its id replaced, and the audit record |
| `Remediation.EdgesExactly` | scripts/apply_ux_remediation_transition.py:12-16 | The four allowed edges between open, in_progress and resolved; any other state leads nowhere |
| `Remediation.AcceptedExactly` | scripts/apply_ux_remediation_transition.py:33-53 | With unique ids an attempt is accepted if and only if it names an actor, moves along an edge and justifies a closing |
| `Remediation.RefusedExactly` | scripts/apply_ux_remediation_transition.py:33-53 | Each refusal is given exactly when its check is the first to fail |
| `Remediation.TransitionExactly` | scripts/apply_ux_remediation_transition.py:56-79 | Every field of the updated item and of the audit record, on a closing, on leaving resolved and on any other move |
| `Remediation.StepMeaning` | scripts/apply_ux_remediation_transition.py:56-70 | A step moves at most the named item along one edge and leaves one audit record; a refused one changes nothing |
| `Remediation.RunKeepsItems` | scripts/apply_ux_remediation_transition.py:69 | Items are never added, dropped, reordered or re-identified |
| `Remediation.RunInvariant` | scripts/apply_ux_remediation_transition.py:41-69 | In every run from open items with unique ids, a resolved item was closed by an attempt of the run whose evidence, valid signature, time and named run it carries, and whose readiness does not name the item's own run; no other item has a resolution time |
| `Remediation.ClosingIsLaterExactly` | scripts/apply_ux_remediation_transition.py:48-49 | The check makes every closing come from a later run if and only if the item names no run and every named run counts as later; for an item that names its run it never does |
| `Remediation.EarlierOrNoRunCloses` | scripts/apply_ux_remediation_transition.py:48-49 | An item of run 7 is closed by readiness of run 6, and by readiness of no run at all |
| `Remediation.ResolvedByExactly` | scripts/apply_ux_remediation_transition.py:62-65 | A resolved item names a run, or a later run, if and only if the attempt that closed it was qualified by one |
| `Remediation.AlwaysLaterExactly` | scripts/apply_ux_remediation_transition.py:41-69 | Along a run an item names a later run whenever it is resolved if and only if every attempt that closes it is qualified by a later run |
| `Remediation.AuditReplaysHistory` | scripts/apply_ux_remediation_transition.py:70-79 | Replaying the audit records over the initial items gives the state, times, actor and qualifying run of every item |
| `Remediation.AuditsAreChained` | scripts/apply_ux_remediation_transition.py:70-79 | Each record starts at the state the records before it lead to and follows an allowed edge |
| `Remediation.DuplicateIdsCollapse` | scripts/apply_ux_remediation_transition.py:69 | With a repeated id an accepted attempt overwrites both entries with the first |
| `Remediation.RecordsRepeatLastClosing` | scripts/apply_ux_remediation_transition.py:66-78 | In every run from open items, a record that closes nothing names exactly the run of the last closing of its item before it, and none if there was no such closing |
| `Remediation.RecordNamesOldRunExactly` | scripts/apply_ux_remediation_transition.py:66-78 | A record names a run that did not qualify its own transition if and only if it closes nothing and the item already named one |
| `DiagramStore.SharedFileExactly` | diagram_generator_portable/core.py:344-351 | Two diagrams share a file if and only if their readable parts and their digests both agree |
| `DiagramStore.SharedVersionExactly` | diagram_generator_portable/core.py:236-238 | Two copies get one name if and only if they are of one file and one second |
| `DiagramStore.DiagramIdInjective` | diagram_generator_portable/core.py:298 | A diagram id determines path and type |
| `DiagramStore.ReadableExactly` | diagram_generator_portable/core.py:344-351 | The readable part is the first 96 characters with dashes for what is not alphanumeric, without the dashes at its ends |
| `DiagramStore.NamesSpelled` | diagram_generator_portable/core.py:234-238 | Identifier, file name and copy name, spelled from path, type, readable part, digest and second |
| `DiagramStore.FileDiagramRepository.SaveDiagram` | diagram_generator_portable/core.py:233-253 | Copies an existing file, writes the fenced content and records the entry |
| `DiagramStore.SaveExactly` | diagram_generator_portable/core.py:233-253 | The fenced text, the copy of what it replaces, every field of the entry and the manifest's time; every other file, copy and entry stays |
| `DiagramStore.OutcomeExactly` | diagram_generator_portable/core.py:297-307 | Empty, idempotent or changed, each if and only if its condition holds; only the last one writes |
| `DiagramStore.FileDiagramRepository.Execute` | diagram_generator_portable/core.py:288-323 | Processes the types in order, each against the store its predecessors left, and returns the outcome per diagram |
| `DiagramStore.ResultsExactly` | diagram_generator_portable/core.py:294-323 | A diagram is reported with the outcome of its last task in the state that the tasks before it left |
| `DiagramStore.ConsistentExactly` | diagram_generator_portable/core.py:240-253 | A task keeps every entry's hash equal to that of the stored file if and only if it does not write another diagram's file with another hash |
| `DiagramStore.RunStaysConsistent` | diagram_generator_portable/core.py:288-323 | When no identifiers of a run collide, every entry describes its file and every file has an entry after the run |
| `DiagramStore.RunFromEmptyConsistent` | diagram_generator_portable/core.py:226-231 | The same for every run from a new repository |
| `DiagramStore.GetDiagramExactly` | diagram_generator_portable/core.py:255-259 | Reading a diagram finds it if and only if it has an entry, and returns content with the recorded hash |
| `DiagramStore.StoredContentExactly` | diagram_generator_portable/core.py:304-306 | After a task the file holds its content unless a different stored content has the same digest |
| `DiagramStore.ReexecutionIsIdempotent` | diagram_generator_portable/core.py:288-323 | Executing again on an unchanged source reports no change and leaves files, versions and manifest untouched, with no assumption on the hash |
| `DiagramStore.KeepsTextsExactly` | diagram_generator_portable/core.py:233-240 | A task keeps every text of every diagram, as a file or a copy, if and only if it does not overwrite a same-second copy whose text nothing else holds |
| `DiagramStore.RunKeepsTextsExactly` | diagram_generator_portable/core.py:233-240 | A run never drops a text if and only if none of its tasks loses one |
| `DiagramStore.SavedContentSurvives` | diagram_generator_portable/core.py:233-240 | In a run of which no task loses a text, everything saved is at the end still a file or a copy |
| `DiagramStore.SameSecondLosesContent` | diagram_generator_portable/core.py:236-238 | Three contents saved for one diagram within a second: the first is lost |
| `OrderStatistics.PercentileIgnoresOrder` | scripts/build_ci_process_improvement_analytics.py:21-30 | The percentile depends only on the multiset of values |
| `OrderStatistics.PercentileIsMonotone` | scripts/build_ci_process_improvement_analytics.py:25-30 | A larger share never gives a smaller percentile |
| `OrderStatistics.ReportedPercentilesAreOrdered` | scripts/build_ci_process_improvement_analytics.py:278-282 | Minimum <= P50 <= P90 <= P95 <= maximum, and the shares 0 and 1 are the extremes |
| `OrderStatistics.OrderStatisticExactly` | scripts/build_ci_process_improvement_analytics.py:24 | The k-th sorted value is within a bound if and only if more than k values are |
| `OrderStatistics.PercentileRank` | scripts/build_ci_process_improvement_analytics.py:21-30 | How many values lie within a percentile, stated by counting and without sorting |
| `OrderStatistics.PercentileIsWeightedMean` | scripts/build_ci_process_improvement_analytics.py:21-30 | At a whole index (n - 1) * share the percentile is that order statistic, otherwise the mean of its two neighbours weighted by the fractional part; of no values it is zero |
| `OrderStatistics.PercentileOfNegatedValues` | scripts/build_ci_process_improvement_analytics.py:21-30 | Negating all values mirrors the percentiles: share 1 - p of the negated values is minus share p of the values |
| `OrderStatistics.PercentileGrowsWithValues` | scripts/build_ci_process_improvement_analytics.py:21-30 | If no value gets smaller, no percentile does |
| `FailurePareto.GroupRuns` | scripts/build_ci_process_improvement_analytics.py:179-187 | The completed runs of the window, grouped under their workflow in order of appearance |
| `FailurePareto.BuildPareto` | scripts/build_ci_process_improvement_analytics.py:179-236 | The table lists exactly the failing workflows with their failures, ranked by failures and name, with shares and cumulative shares |
| `FailurePareto.FailuresExactly` | scripts/build_ci_process_improvement_analytics.py:179-215 | The failures of a workflow are its completed runs concluded with failure, counted in the window |
| `FailurePareto.RateExactly` | scripts/build_ci_process_improvement_analytics.py:231-236 | A share times the total is a hundred times the failures; of nothing it is zero |
| `FailurePareto.ParetoConservesFailures` | scripts/build_ci_process_improvement_analytics.py:207-229 | Per-workflow failures sum to the total |
| `FailurePareto.SharesInOrder` | scripts/build_ci_process_improvement_analytics.py:231-236 | Down the table shares never grow, cumulative shares never decrease and never exceed 100 |
| `FailurePareto.SharesReachHundred` | scripts/build_ci_process_improvement_analytics.py:231-236 | The table is empty if and only if nothing failed; otherwise the cumulative share ends at 100 |
| `FailurePareto.FirstRowsAreWorst` | scripts/build_ci_process_improvement_analytics.py:230 | The first k rows hold the most failures that any k workflows can hold |
| `FailurePareto.ParetoIgnoresOrder` | scripts/build_ci_process_improvement_analytics.py:179-230 | The table is determined by the runs, whatever their order |

## Left out

- SyncProtocol.NoLostUpdate: nothing is stated about edits between the re-read of a task and the write, because they are two connector calls.
- SyncProtocol.RunInvariant: people who delete, reorder or retype memory rows are outside the runs; with a second row for a task the flows patch only the first.
- SyncSettling.OnePassQuiesces: Planner is taken to return a task as it was stored; a server that normalises deadlines would look like an edit.
- FlowActions.Tenant.Execute: CorrelationId, EventId, timestamps and the history's text summary are not recorded; OData quoting of ids in filters is not modelled.
- FlowActions.PlannerBodyMeaning: an If records no status of its own, because no action in the three flows waits for one inside its scope.
- FlowActions.HealthFlowMeaning: the upper-casing of the status column is not modelled; only the flows write it, always in upper case.
- FlowActions.ValidateDefinition: the JSON text that is searched for forbidden names is a field of the definition, not printed from it.
- Admission.Decide: the echo of the expected sha, the window and the status text in the result, and lists that are no lists.
- FixedWindow.FetchRunsForWindow: a page size above the server's own cap, where every full page looks short; `perPage` is at least 1.
- FixedWindow.CompleteCollectionIsExact: timestamps that do not parse and would raise.
- Recovery.Evaluate: rates, medians, alert texts and `consolidate`; mixed naive and zoned timestamps, whose comparison raises.
- BoundedHistory.MtbfIsSpanOverCount: the rounding to two decimals.
- EvidenceLedger.AppendLedger: the other checks of `build_record`; a record is its run, environment and the rest as one text.
- TablePart.WorkbookRoundTrip: the texts of parts that are neither tables nor content types, the ZIP container, its CRCs, and XML escapes of the reader, which it does not undo.
- TablePart.TablesOfPackage: a package with two parts under one name, of which the original reads the last text twice.
- WorkbookCheck.ValidateWorkbook: the ZIP integrity errors that are checked first, and the order of the problem list.
- Bacen.CompareSnapshots: reading the YAML files, the transitions list and the counts in the report.
- FlowCompletion.NewestAlwaysKeptExactly: time stamps are instants given with their texts; parsing is not modelled.
- FlowCompletion.BuildItem: the two-decimal rounding of ages, item ids and the evidence link copied into the report; an event without a time raises in the original.
- AlertState.BuildState: fingerprints are stored in the order of the alerts instead of sorted, which no look-up can see.
- Remediation.RunInvariant: does not promise that the qualifying run is later, or that there is one, because the code checks neither; the order of runs is a parameter where lateness is stated.
- Remediation.ApplyTransition: evidence and signature fields are texts; JSON canonicalisation and HMAC are one function of evidence and secret.
- DiagramStore.RunStaysConsistent: the file system's own name rules, and the manifest's constant ADR list.
- OrderStatistics.PercentileRank: floating point; values are reals and not rounded.
- FailurePareto.BuildPareto: the remaining columns of the summary (averages, deviations, throughput, trend windows, warnings).
- Card, dashboard and Markdown rendering, command lines, HTTP, GitHub and Graph calls, and the single-branch classifiers beside these scripts.

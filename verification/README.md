# Mission Control: verified models

Dafny models of the parts of the LION Mission Control tools whose correctness does not show from one function alone:
text that two programs read and a third rewrites, transactions that must undo themselves, protocols between processes
that may crash, and projections that must not depend on the order of their input. `dafny verify dfyconfig.toml` checks
all of it.

| file | what it models |
|---|---|
| `text.dfy` | Python's `strip`, line splitting and joining |
| `lpcl_reader.dfy` | mission text: the hand-written reader, the regular-expression reader with its backtracking matcher |
| `lpcl_values.dfy` | which characters of the text a value consists of |
| `lpcl_rewrite.dfy` | replacing one key of a mission text, and compiling a design revision out of seven replacements |
| `lpcl_anytext.dfy` | the same replacement on texts with carriage returns anywhere |
| `rag32.dfy` | length-delimited records: the frame printer as specification, the reader, the record checks |
| `deployment.dfy` | the two transactional deployments of the admission broker and their rollback |
| `reset_plan.dfy`, `reset.dfy` | the offline mission reset: finding the tables, selecting, archiving and deleting the rows |
| `reset_cover.dfy` | which plans of the reset select every row that references a selected one |
| `phases.dfy` | the phase engine shared by the mission drivers |
| `lease.dfy`, `messages.dfy` | the thread store: its lease between processes, its message numbers and receipts |
| `census.dfy` | the branch census over a commit graph, and chains of censuses |
| `sorting.dfy`, `projection.dfy` | stable sorting, and the federated architecture projection |
| `projection_exact.dfy` | which rows each output of the projection holds, said without the functions that compute them |
| `mailbox.dfy` | the material drone's mailbox with crashes, restarts and redelivery, and its receipts |
| `worker.dfy`, `cooperative.dfy` | the local assignment worker and the cooperative adapter |
| `lifecycle.dfy` | lifecycle normalisation, classification and capabilities |
| `update_provider.dfy` | compare-and-swap update of the broker with backups and receipts |
| `single_flight.dfy` | the single flight of the recent-missions projection |

Code that changes state is a class or a method with the source's loops; its contract equates the new state with a
function of the old one, and the lemmas about that function speak of whole runs. A call into a service, the file system
or the database may fail at any step. Fields of a class say which ones cannot, so that contracts can also say what
happens then: `reliable` or `steady` for every step, in the deployments `reliable` for the file steps before a rollback,
`sure` for the files whose restoring succeeds and `failing` for the service calls that fail. SHA-256 is a function,
assumed injective only where a lemma says so; JSON is a pair of a decoder and an encoder; the clock never runs backwards.

## What does not hold of the code as it is

These statements fail for some input. Each has a lemma with such inputs and, where it can be told from the state before
the call, the exact condition.

- A rewritten key reads back with the new value only if no later line assigns it again, or it had that value already
  (`LpclRewrite.RewriteIff`). The reader ends lines at a lone carriage return and the rewriter does not, so replacing a
  line can drop keys that the rest of it hides (`LpclRewrite.CarriageReturnLosesKey`). For every text the rewrite is
  exact if and only if nothing behind the matched line gives the key another value and every key hidden in that line is
  assigned again behind it or has the same value before it; appending is always exact (`LpclAnyText.RewriteAnyIff`).
- `mission_control_v3_install` marks the drop-in as absent until its backups are complete. A fault before that removes
  the drop-in if there was one (`Deployment.Host.Install`: with a clean rollback the drop-in is as before if and only if
  the backups were complete or there was none).
- A reset may select a row and leave one that references it. The plan selects every referencing row, in every database,
  if and only if it covers each reference into a planned table: the table of the reference is planned, and either one of
  the referencing columns is a mission column that its predicate tests, or its clauses look where the referenced values
  come from (`ResetCover.ClosedIffCovered`). A parent planned later, a child that has a mission column of its own and a
  table that references itself are the ways to miss this (`ResetPlan.LaterParentMissed` is a family of the first). The
  final foreign-key check is what protects the database (`Reset.IntegrityIffClosed`).
- A readiness phase that is not the last phase closes its mission while phases are open (`Phases.TerminalMustBeLast`).
- A displaced lease owner is not refused at once. An owner is refused if and only if a heartbeat of its open store has
  failed or found the row lost (`Lease.RefusedIffHeartbeatFailed`); from displacement on, if and only if such a heartbeat
  comes before it closes (`Lease.DisplacedRefusedIff`). A store that was closed is never refused
  (`Lease.ClosedNeverRefused`).
- A receipt key repeated in the metadata of an appended pair is carried twice (`Messages.PairKeepsOnce`).
- A branch keeps the class it was first given while it does not move (`Census.ClassStays`). So it can be called deletable
  although the default branch now mentions it, against the policy text in the same file
  (`Census.MentionedYetDeletable`), or unmerged although it has been merged (`Census.MergedYetUnmerged`).
- The order of a file list shows in the census if and only if two files of one path, neither skipped nor generated, have
  different blobs (`Projection.FileOrderIff`).
- A task id that holds a character at which `splitlines` breaks is forgotten by a restart and can run twice
  (`Mailbox.BreakRunsTwice`); every other id runs at most once (`Mailbox.AtMostOnce`).
- A torn backup under a name that a receipt already cites damages that receipt; two updates in one second can meet this
  (`UpdateProvider.DamageIffTornCited`, `UpdateProvider.TornInSameSecond`).
- A caller that comes between a leader's result and its removal gets a read that ended before it called
  (`SingleFlight.JoinsEndedRead`, `SingleFlight.JoinAfterResult`).

## Model

| member | source | states |
|---|---|---|
| Regex.OnlyLongest | tools/lion_local_intelligence_runtime.py:266 | greedy repetition with backtracking keeps the longest run when no shorter one can be continued |
| Lpcl.KeyMatchIsAssignment | tools/lion_local_intelligence_runtime.py:286-288 | on every line the regular expression with its groups recognises exactly what the hand-written recogniser does |
| Lpcl.LpclPairs | tools/lion_mission_control_v3.py:425-440 | the hand-written reader returns, for every text, the dictionary the text means |
| Lpcl.Continuation | tools/lion_mission_control_v3.py:431-438 | an empty value takes the joined rows up to the next assignment, comments and blanks left out |
| Lpcl.ParsePairs | tools/lion_local_intelligence_runtime.py:283-298 | the regular-expression reader returns that same dictionary, so the two readers agree on every string |
| Lpcl.MatchContinuation | tools/lion_local_intelligence_runtime.py:289-296 | its continuation rows are those of the other reader |
| Lpcl.LastAssignmentWins | tools/lion_mission_control_v3.py:439 | a key is present exactly when a row assigns it, and has the value of the last such row |
| LpclValues.ContinuationValue | tools/lion_mission_control_v3.py:429-439 | for every text and every key whose last assignment has nothing behind its equals sign: the value is made of the stripped lines up to the next assignment that are neither blank nor comments, each in order and at its offset, with one space between two and nothing else |
| LpclValues.InlineValue | tools/lion_mission_control_v3.py:425-439 | for every text a last assignment with something behind its equals sign gives exactly that, stripped |
| LpclValues.JoinIsSpaced | tools/lion_mission_control_v3.py:438 | joined rows have the total length plus one space between two, and each row stands at its own offset |
| LpclRewrite.SearchIsLeftmost | tools/lion_mission_control_v3.py:1074-1076 | the search finds a line that starts with the key and the equals sign, and no earlier one |
| LpclRewrite.SpliceChangesFirst | tools/lion_mission_control_v3.py:1076 | replacing one match changes the first matching line and no other line |
| LpclRewrite.ReplaceKeyRewrites | tools/lion_mission_control_v3.py:1072-1076 | the replace branch and the append branch both do to the rows what a rewrite should |
| LpclRewrite.RewriteExact | tools/lion_mission_control_v3.py:1072-1076 | in a text whose carriage returns all belong to CRLF line ends, the rewritten text reads as the old dictionary with exactly that key set, unless a later row assigns it again, in which case nothing changes |
| LpclRewrite.RewriteIff | tools/lion_mission_control_v3.py:1072-1076 | the rewrite sets its key exactly when no later row overrides it or the key had the value already |
| LpclRewrite.AtMostOneIsReplaceable | tools/lion_mission_control_v3.py:1072-1076 | at most one assignment line for a key is enough for that condition |
| LpclRewrite.ChainExact | tools/lion_mission_control_v3.py:1092-1099 | a chain of rewrites changes exactly its keys, each to its value |
| LpclRewrite.RevisionExact | tools/lion_mission_control_v3.py:1079-1103 | the compiled successor text reads as its source with exactly the seven revision keys set to their values |
| LpclRewrite.ValueOfEdit | tools/lion_mission_control_v3.py:1092-1099 | the seven rewrites give each of the seven keys its value, and no other key |
| LpclRewrite.RevisionKeepsPhases | tools/lion_mission_control_v3.py:1092-1099 | every phase and protocol declaration of the source is there unchanged |
| LpclRewrite.CarriageReturnLosesKey | tools/lion_mission_control_v3.py:1074-1076 | a family of texts with a lone carriage return in the matched line loses the key after it |
| LpclAnyText.MeansFineRows | tools/lion_mission_control_v3.py:425-440 | every text means what its rows between line ends of any kind mean |
| LpclAnyText.ReplaceAnyText | tools/lion_mission_control_v3.py:1072-1076 | on any text the replace branch keeps what stands before and behind the matched line, sets the key, and drops what the line hid |
| LpclAnyText.AppendAnyText | tools/lion_mission_control_v3.py:1076 | on any text the append branch sets exactly its key |
| LpclAnyText.RewriteAnyIff | tools/lion_mission_control_v3.py:1072-1076 | on any text the rewrite sets exactly its key if and only if nothing behind the line overrides it and no hidden key matters |
| Rag32.ReadsDocument | tools/lion_rag32_validate.py:15-39 | from a printed document the reader yields, record by record and in order, the decoded id, the parsed metadata, the payload bytes, and as block the whole frame with the newline behind it if there is one; payloads that look like markers included |
| Rag32.AcceptedIsDocument | tools/lion_rag32_validate.py:15-39 | whatever the reader accepts is a printed document of exactly the records it yields, and gaps, blocks and tail, put together in order, are the file byte for byte, so blocks never overlap |
| Rag32.AcceptsExactlyDocuments | tools/lion_rag32_validate.py:15-39 | a file is read without error if and only if it is a printed document |
| Rag32.Records | tools/lion_rag32_validate.py:15-39 | the cursor loop yields that reading, faults included, and its cursor strictly grows |
| Rag32.ValidateRecords | tools/lion_rag32_validate.py:64-74 | the record loop passes exactly when every record describes its payload, no id or path repeats, and the count is the announced one |
| Deployment.Host.AtomicCopy | tools/lion_effect_admission_broker.py:1987-1997 | the target has its old content or the whole new one, and no other file changes |
| Deployment.Host.BackupOptional | tools/lion_effect_admission_broker.py:2067-2069 | on success the backup holds the content there was, and the answer says whether there was any |
| Deployment.Host.RestoreOptional | tools/lion_effect_admission_broker.py:2072-2074 | on success the target is what its backup says it was, or absent; it succeeds whenever nothing keeps the target from being restored and the backup it needs is there |
| Deployment.Host.Identity | tools/lion_effect_admission_broker.py:1679-1687 | accepts exactly when every file is there with its pinned digest |
| Deployment.Host.BackupPackage | tools/lion_effect_admission_broker.py:2093-2094 | every recorded live file is in its backup, also when the loop stops half way |
| Deployment.Host.CopyPackage | tools/lion_effect_admission_broker.py:2100 | on success every live file is the staged one; nothing else changes |
| Deployment.Host.RestorePackage | tools/lion_effect_admission_broker.py:2122-2127 | each file without a recorded error is restored or removed as recorded, whatever became of the others; a file that nothing keeps from being restored has no recorded error |
| Deployment.Host.OperatorBody | tools/lion_effect_admission_broker.py:2099-2117 | if it returns, package, unit and drop-in are installed; at any fault only those files and the request's own were touched |
| Deployment.Host.Rollback | tools/lion_effect_admission_broker.py:2118-2142 | every restore is tried: one that nothing keeps from succeeding is carried out and not reported, each one not reported has been carried out, and a service failure is reported exactly when one of the calls due fails |
| Deployment.Host.TriedMeansAll | tools/lion_effect_admission_broker.py:2120-2138 | with the backups in place, no report names a file whose restoring succeeds |
| Deployment.Host.OperatorDeploy | tools/lion_effect_admission_broker.py:2082-2142 | refused: nothing changed; deployed exactly when, without file faults, package and calls are in order, and then every live file is the staged and pinned one; rolled back: every file whose restore reports no error is as before, every restore that can succeed is not reported, and if all can then the report is clean and the whole file system is as before |
| Deployment.Host.Install | tools/lion_effect_admission_broker.py:1868-1949 | the same for the package at every fault; for the drop-in, as long as its restore is not reported, exactly when the backups were complete or there was none |
| Deployment.CleanRollback | tools/lion_effect_admission_broker.py:2118-2142 | a rollback that reports no error leaves nothing changed but what belongs to the request |
| Deployment.DropInAfter | tools/lion_effect_admission_broker.py:1877-1885 | the drop-in comes back if and only if the backups were complete or there was no drop-in |
| ResetPlan.Discover | tools/lion_mission_state_reset.py:19-47 | the loops end and return the discovered plan, logical extras included, or the refusal |
| ResetPlan.PlannedIsLeast | tools/lion_mission_state_reset.py:27-41 | the tables planned before the logical extras are the least set that holds the mission tables and is closed under references |
| ResetPlan.PlannedExactly | tools/lion_mission_state_reset.py:27-46 | the planned tables are exactly the least closed set and, of the two logical pairs, the children in the schema whose parent is in it |
| ResetPlan.LogicalExtras | tools/lion_mission_state_reset.py:43-46 | the plan extends the fixpoint without changing it, by exactly those children |
| ResetPlan.LogicalChildrenPlanned | tools/lion_mission_state_reset.py:43-46 | a child of a logical pair that is in the schema is planned whenever its parent is |
| ResetPlan.LogicalRows | tools/lion_mission_state_reset.py:43-46 | in every database a row of such a child is selected if and only if its request identity is not null and is that of a selected parent row |
| ResetPlan.MissionRows | tools/lion_mission_state_reset.py:24-26 | a row of a table with mission columns is selected if and only if one of the three columns is there and not null |
| ResetPlan.RefusalNamesTable | tools/lion_mission_state_reset.py:36-39 | a refusal names a table without mission column that has a composite or implicit reference into every closed set |
| ResetPlan.PlanReachesMission | tools/lion_mission_state_reset.py:26-46 | every selected row reaches, by declared or logical references between equal non-null values, a row with a mission identity |
| ResetPlan.LaterParentMissed | tools/lion_mission_state_reset.py:31-41 | a family of schemas where a row that references a descendant of a mission stays unselected though its table is planned |
| ResetCover.CoveredIsClosed | tools/lion_mission_state_reset.py:26-46 | a plan that covers every reference selects, in every database, each row that references a selected one |
| ResetCover.UncoveredMisses | tools/lion_mission_state_reset.py:26-46 | an uncovered reference has a database in which a selected row is referenced by one that stays |
| ResetCover.ClosedIffCovered | tools/lion_mission_state_reset.py:19-47 | the selection of the discovered plan is closed under references in every database if and only if the plan covers every reference |
| ResetCover.CoveredResetSucceeds | tools/lion_mission_state_reset.py:88-97 | on a sound database with unique parent keys a covered plan that selects every mission passes the final checks |
| Reset.IntegrityIffClosed | tools/lion_mission_state_reset.py:88-95 | deleting a selection from a sound database with unique parent keys leaves no dangling reference if and only if no remaining row references a selected one |
| Reset.Store.Materialise | tools/lion_mission_state_reset.py:71-78 | all rows are selected on one state of the database and archived with their tokens redacted; a token that is not text makes it fail |
| Reset.Store.DeleteRows | tools/lion_mission_state_reset.py:88-89 | exactly the materialised rows go, in whatever order tables and rows are visited |
| Reset.Store.Apply | tools/lion_mission_state_reset.py:86-97 | either the writes are complete and the checks passed, or the database is as it was |
| Reset.Store.ResetOffline | tools/lion_mission_state_reset.py:50-104 | either nothing changed or exactly the selected rows are gone, no mission remains, no declared reference dangles, marker and scheduler are set, and backup and archive hold the original; it reports the true counts, and without faults it succeeds exactly when the result passes the checks |
| Reset.Conservation | tools/lion_mission_state_reset.py:71-92 | every original row of every table is archived in redacted form and gone, or stays: unchanged, paused in the scheduler table, or dropped as focus or old marker in the meta table |
| Reset.RedactedRowIs | tools/lion_mission_state_reset.py:75-78 | a redacted row holds the digest in place of the token and every other column as it was |
| Reset.MarkedAndPaused | tools/lion_mission_state_reset.py:90-92 | afterwards exactly one row marks the reset, none holds a focus, and every scheduler row is paused, empty and otherwise as it was |
| Reset.TargetIs | tools/lion_mission_state_reset.py:94 | a reference without named target column means the parent key column in the same place |
| Reset.RedactionIsInjective | tools/lion_mission_state_reset.py:75-78 | redaction loses nothing but the token text: equal redacted rows come from equal rows |
| Phases.Mission.Recompute | tools/lion_mission_control_v3.py:1616-1626 | the loops compute the mean progress and the current phase and start the next one |
| Phases.Mission.PhaseResult | tools/lion_mission_control_v3.py:1629-1641 | phase, progress and life cycle after a result |
| Phases.Mission.Drive | tools/lion_mission_control_v3.py:1705-1722 | one driver pass changes the mission as the specified step does |
| Phases.RecomputeKeeps | tools/lion_mission_control_v3.py:1616-1626 | recomputing makes the first open phase current and the progress 100 times passed over total |
| Phases.RunKeeps | tools/lion_mission_control_v3.py:1616-1641 | in every run of drivers the passed phases form a prefix, one phase is open, all later ones are pending, progress is exact, and the mission is complete exactly when all phases passed |
| Phases.ProgressNeverFalls | tools/lion_mission_control_v3.py:1616-1626 | between any two points of a run progress does not fall |
| Phases.StepKeeps | tools/lion_mission_control_v3.py:1860-1945 | a pass of any driver, and of the native route, passes at most one more phase and keeps the invariant |
| Phases.HoldStays | tools/lion_mission_control_v3.py:1961-1967 | a wait changes nothing but the status of the open phase and keeps the invariant |
| Phases.PassAdvances | tools/lion_mission_control_v3.py:1629-1641 | a pass of the open phase opens the next one and leaves the mission running, or completes it after the last |
| Phases.WaitStays | tools/lion_mission_control_v3.py:1629-1641 | a waiting result leaves the phase current and the mission waiting, a blocked one leaves it blocked |
| Phases.TerminalMustBeLast | tools/lion_mission_control_v3.py:1818-1821 | a readiness phase before the last one closes the mission while later phases are open |
| Lease.Board.LeaseWrite | tools/lion_local_intelligence_runtime.py:104-137 | a claim succeeds exactly when no other owner holds an unexpired lease, a renewal exactly when the row is one's own |
| Lease.Board.Beat | tools/lion_local_intelligence_runtime.py:140-146 | any failed renewal ends the heartbeat and sets the lost mark |
| Lease.Board.CloseStore | tools/lion_local_intelligence_runtime.py:150-158 | closing removes only the owner's own row |
| Lease.SpansNeverOverlap | tools/lion_local_intelligence_runtime.py:104-158 | in every interleaving the spans promised to two different owners never overlap |
| Lease.RefusedIffPromised | tools/lion_local_intelligence_runtime.py:112-116 | a claim is refused if and only if a promise to another owner is still running |
| Lease.DisplacedIsHarmless | tools/lion_local_intelligence_runtime.py:122-158 | nothing a displaced owner still does changes its successor's row |
| Lease.RefusedIffHeartbeatFailed | tools/lion_local_intelligence_runtime.py:140-149 | in every run an owner is refused if and only if a heartbeat of its open store failed or found the row lost |
| Lease.DisplacedRefusedIff | tools/lion_local_intelligence_runtime.py:140-158 | a displaced owner with an open store is refused if and only if a heartbeat of its own comes before its close |
| Lease.ClosedNeverRefused | tools/lion_local_intelligence_runtime.py:147-158 | a store closed without the mark is never refused in any continuation |
| Lease.LostForever | tools/lion_local_intelligence_runtime.py:147-149 | once the mark is set every later call is refused |
| Lease.DisplacedNotYetRefused | tools/lion_local_intelligence_runtime.py:140-149 | for any two owners there is a run in which the second holds the lease and the first is not refused yet |
| Lease.ClosedServedBesideSuccessor | tools/lion_local_intelligence_runtime.py:147-158 | for any two owners there is a run after which the second holds the lease and the first, closed, is served whatever follows |
| Messages.Table.AppendPair | tools/lion_local_intelligence_runtime.py:238-248 | both rows are added with the next two numbers, or none |
| Messages.Table.AppendAssistantOnce | tools/lion_local_intelligence_runtime.py:249-260 | a row is added exactly when the thread has no assistant message with the key |
| Messages.Table.ImportThread | tools/lion_local_intelligence_runtime.py:191-203 | the non-empty messages become a new thread numbered from one |
| Messages.CleanNext | tools/lion_local_intelligence_runtime.py:191-203 | each imported part becomes one message with its role and the first 24000 or 8000 characters, or none if it is empty |
| Messages.Table.DeleteThread | tools/lion_local_intelligence_runtime.py:229-237 | the thread and all its messages go, nothing else |
| Messages.RunOrdered | tools/lion_local_intelligence_runtime.py:191-260 | in every store reached by these operations the messages of each thread are numbered exactly 1 to n |
| Messages.RunOnce | tools/lion_local_intelligence_runtime.py:249-260 | at most one assistant message of a thread carries a receipt key, as long as appended pairs do not repeat one |
| Messages.PairKeepsOnce | tools/lion_local_intelligence_runtime.py:238-248 | an appended pair keeps keys unique if and only if its metadata does not repeat a key of the thread |
| Messages.DeliveredOnce | tools/lion_local_intelligence_runtime.py:249-260 | after a delivery the receipt is there and delivering it again changes nothing |
| Census.AncestorsInclude | tools/lion_global_maintenance_projection.py:68-72 | a commit is an ancestor exactly when all its history is |
| Census.AncestorHasWay | tools/lion_global_maintenance_projection.py:68-72 | every ancestor is reached by a way along parents |
| Census.WayLeadsToAncestor | tools/lion_global_maintenance_projection.py:68-72 | every such way ends at an ancestor |
| Census.BeyondIffUnreachable | tools/lion_global_maintenance_projection.py:118-119 | the counted difference is zero exactly when the tip is reachable |
| Census.FirstClassification | tools/lion_global_maintenance_projection.py:123-132 | without a class to carry over: deletable and historical mean merged, unmerged means ahead only, unknown means exactly diverged, superseded never occurs |
| Census.DeletableThoughReferenced | tools/lion_global_maintenance_projection.py:123-126 | a mentioned branch is called deletable if and only if that class was carried over |
| Census.ClassStays | tools/lion_global_maintenance_projection.py:94-124 | in every chain a class other than active and unknown goes over to the next census while repository, branch and head stay |
| Census.MentionedYetDeletable | tools/lion_global_maintenance_projection.py:122-126 | for every merged branch there is a chain of two censuses whose second calls it deletable though it is mentioned |
| Census.MergedYetUnmerged | tools/lion_global_maintenance_projection.py:122-128 | for every branch that is ahead there is a chain of two censuses whose second calls it unmerged after it was merged |
| Census.BranchCensus | tools/lion_global_maintenance_projection.py:89-149 | the loops return the census, or nothing when a default branch drifted, and the counts are the numbers of rows of each class |
| Census.RefusedIffDrifted | tools/lion_global_maintenance_projection.py:99-105 | a census is refused if and only if some default branch does not point where its repository row says |
| Census.CountsAddUp | tools/lion_global_maintenance_projection.py:140-142 | the class counts add up to the number of rows |
| Census.ChainHolds | tools/lion_global_maintenance_projection.py:94-139 | over any chain of censuses with fast-forwarding default branches: ahead and behind are the sizes of the two ancestor differences, the active row is the default branch, deletable and historical rows are merged, unknown rows diverged, superseded never occurs |
| Census.DeletableIsReachable | tools/lion_global_maintenance_projection.py:94-139 | a branch called deletable in any census of such a chain holds no commit its default branch cannot reach |
| Sorting.SortForgetsOrder | tools/lion_federated_architecture_knowledge.py:195-208 | a stable sort gives one result for all arrangements when equal keys mean equal elements |
| Sorting.StrLeqMeans | tools/lion_federated_architecture_knowledge.py:195-208 | string order is decided at the first difference, and without one by the prefix |
| Projection.BuildCensus | tools/lion_federated_architecture_knowledge.py:210-270 | the loops build the specified census |
| Projection.BuildRoleMatrix | tools/lion_federated_architecture_knowledge.py:273-299 | the loop builds the specified matrix |
| Projection.BuildDependencyGraph | tools/lion_federated_architecture_knowledge.py:302-338 | the loop builds the specified graph and stops at the first edge that leaves the federation |
| Projection.DependencyGraphExact | tools/lion_federated_architecture_knowledge.py:302-338 | the graph holds each declared edge once, sorted, and nothing else; it is refused exactly when a declared edge leaves the federation |
| ProjectionExact.IdentityExact | tools/lion_federated_architecture_knowledge.py:195-208 | one row for each repository, in the order of identities, with its own branch, head, tree and manifest |
| ProjectionExact.CensusExact | tools/lion_federated_architecture_knowledge.py:210-270 | a row is in the census if and only if it is that of a listed file that counts, and what its fields are |
| ProjectionExact.CensusOrdered | tools/lion_federated_architecture_knowledge.py:210-270 | the census of an accepted snapshot is ordered by repository and path |
| ProjectionExact.RoleMatrixExact | tools/lion_federated_architecture_knowledge.py:273-299 | one row for each repository in order, with its declared role and lists or the undeclared defaults |
| ProjectionExact.DocumentGraphExact | tools/lion_federated_architecture_knowledge.py:341-389 | an edge is in the graph if and only if it is one of the listed references between two documents of the census; the edges are in row order |
| Projection.BuildDocumentGraph | tools/lion_federated_architecture_knowledge.py:341-389 | the loop, in snapshot order, builds the specified edges |
| Projection.BuildReconciliation | tools/lion_federated_architecture_knowledge.py:392-475 | the loops build the specified findings, or fail without the owner or on a malformed code projection |
| ProjectionExact.ReconciliationExact | tools/lion_federated_architecture_knowledge.py:392-475 | refused exactly without the owner or on a malformed code projection; else one finding for each declared artifact, stale if and only if no census row has its repository and path and otherwise as its currentness declares; contradictions are exactly the stale findings, the missing entry points and a code projection whose tree is not the owner's |
| ProjectionExact.ProjectedWhen | tools/lion_federated_architecture_knowledge.py:84-129 | there is a projection if and only if the snapshot is acceptable, no declared edge leaves it, it has the owner and any code projection is well formed |
| Projection.PermutedDocuments | tools/lion_federated_architecture_knowledge.py:341-389 | although repositories are visited in snapshot order, sorting the edges removes that order |
| Projection.RepositoryOrderForgotten | tools/lion_federated_architecture_knowledge.py:195-475 | every output and every refusal is the same for every order of the repositories |
| Projection.AlikeProjected | tools/lion_federated_architecture_knowledge.py:210-270 | the outputs depend on each file list only through its sorted form without the blobs that do not show |
| Projection.OrderForgotten | tools/lion_federated_architecture_knowledge.py:589-609 | every output is unchanged by any rearrangement of repositories and of file lists whose showing blobs agree path by path |
| Projection.RepeatedPathShows | tools/lion_federated_architecture_knowledge.py:220-228 | in any file list, two files of one path that shows, with different blobs, show which of them comes first |
| Projection.FileOrderIff | tools/lion_federated_architecture_knowledge.py:220-264 | the census of a repository is the same for every order of its files if and only if files of one path that is neither skipped nor generated have the same blob |
| Mailbox.Drone.Handle | tools/lion_material_drone_worker.py:151-165 | one turn over a task takes it and then refuses it, exactly when the id is known, or notes, records and runs it up to a crash or a failed append; without those a new id is recorded and executed |
| Mailbox.AppendedLines | tools/lion_material_drone_worker.py:148-159 | an appended id is a line of its own, and found again, exactly when it holds no line break |
| Mailbox.LinesUnfold | tools/lion_material_drone_worker.py:148-150 | a line ends at its first break; a carriage return with the line feed behind it is one break, every other break is its own |
| Mailbox.AtMostOnce | tools/lion_material_drone_worker.py:144-165 | over all crashes, restarts and redeliveries an id without line break is executed at most once |
| Mailbox.BreakRunsTwice | tools/lion_material_drone_worker.py:148-159 | every id with a line break has a run in which it is executed twice |
| Mailbox.ReceiptAccepted | tools/lion_material_drone_worker.py:162-163 | every receipt the worker writes, for executed and denied tasks, passes the validators' and the broker's check |
| Mailbox.ReceiptTells | tools/lion_material_drone_worker.py:162-163 | each field of a receipt holds the fact it is named for, and the status is PASS for executed and DENY for refused tasks |
| Mailbox.ValidIffIntrinsic | tools/lion_local_intelligence_runtime.py:573-577 | the broker's check and the validators' check differ in the field set alone |
| Mailbox.DigestFixesReceipt | tools/lion_material_drone_worker.py:82-87 | two accepted receipts with one digest are equal in every field |
| Worker.AcceptedIsSafe | tools/lion_local_intelligence_runtime.py:659-757 | a log that follows the protocol has at most one acknowledged claim and one model call, the call only after intent and attempt were acknowledged, PASS only with the confirmed digest of the answer, and no FAILED after a call that raised |
| Worker.Pass.Announce | tools/lion_local_intelligence_runtime.py:719-721 | the model may be called only when intent and send attempt were acknowledged |
| Worker.Pass.Call | tools/lion_local_intelligence_runtime.py:722-730 | a call that raises is followed by SEND_UNKNOWN, an answer by SEND_CONFIRMED with its digest |
| Worker.Pass.Deliver | tools/lion_local_intelligence_runtime.py:731-748 | an empty answer ends in an acknowledged FAILED transition when no call fails; any other ends in a PASS receipt with the confirmed digest |
| Worker.Pass.GiveUp | tools/lion_local_intelligence_runtime.py:749-756 | the failure handler sends FAILED exactly from the intent and the confirmed state, and then one FAIL receipt |
| Worker.Pass.Serve | tools/lion_local_intelligence_runtime.py:668-756 | what follows a claim keeps to the protocol, and when no call fails ends in the receipt the answer calls for |
| Worker.Pass.Once | tools/lion_local_intelligence_runtime.py:659-757 | for every pattern of failing calls the log of a pass is safe; when none fails the first row for the drone ends in the PASS or FAIL receipt its answer calls for |
| Cooperative.ClaimPayload | tools/lion_cooperative_worker_adapter.py:55-79 | a payload is returned exactly for a live claim of the offered row by this worker, and it is bound to that claim's assignment, mission and generation |
| Cooperative.Serve | tools/lion_cooperative_worker_adapter.py:105-134 | a write or verification is made if and only if the claim is live, bound and fit for it, then one receipt is sent; it says PASS if and only if the readback holds, or the writer returned what was expected with a digest of 64 hexadecimal digits |
| Cooperative.Once | tools/lion_cooperative_worker_adapter.py:82-135 | every offered row before the first acknowledged claim is tried and refused, in order; that claim's session ends the pass, and a pass without one tried every offered row |
| Cooperative.OneReceiptPerPass | tools/lion_cooperative_worker_adapter.py:128-134 | a pass has at most one acknowledged claim, one write directly after it, and one receipt, which is the last thing it does |
| Lifecycle.Store.Normalise | tools/lion_mission_lifecycle_db.py:404-460 | a call either changes nothing or supersedes the two targets with a receipt each; without faults it does so exactly when the request is due, and reports the work as done already exactly when both targets are superseded |
| Lifecycle.RepeatIsAlready | tools/lion_mission_lifecycle_db.py:436-444 | a request that was carried out is not due again; the same request finds its work done |
| Lifecycle.ReceiptsTell | tools/lion_mission_lifecycle_db.py:445-456 | the two receipts hold the states of their targets before and after, and successor, head and tree |
| Lifecycle.AddsTwoReceipts | tools/lion_mission_lifecycle_db.py:445-456 | a normalisation adds one receipt for each target and touches no other mission |
| Lifecycle.RunKeeps | tools/lion_mission_lifecycle_db.py:404-460 | over any run of calls with any arguments a mission is normalised at most once and stays superseded |
| Lifecycle.OneReceiptEach | tools/lion_mission_lifecycle_db.py:404-460 | in every run from a database without receipts no two receipts are of one mission, and each mission with a receipt is superseded |
| Lifecycle.LaterCallsChangeNothing | tools/lion_mission_lifecycle_db.py:439-444 | any number of later calls that name one of the targets leave the database as it is and add no receipt |
| Lifecycle.SupersededIsReadOnly | tools/lion_mission_lifecycle_db.py:286-310 | a superseded mission is historical, and exactly refresh, audit and validate are supported |
| Lifecycle.TargetsStayReadOnly | tools/lion_mission_lifecycle_db.py:13-51 | both targets classify as historical after a normalisation and after whatever calls follow |
| Lifecycle.ClassesMean | tools/lion_mission_lifecycle_db.py:13-51 | each class exactly: which states, authorities and drivers lead to it, and which class comes first |
| Lifecycle.ActsExactly | tools/lion_mission_lifecycle_db.py:286-330 | for each operation exactly when it is supported, bounded, denied, or only drafted |
| UpdateProvider.Provider.ApplyUpdate | tools/lion_broker_update_provider.py:314-463 | one request with a fault after any step is the specified step; it returns only when nothing failed, and when no step fails it returns if and only if the request is acceptable |
| UpdateProvider.RunLosesNothing | tools/lion_broker_update_provider.py:314-463 | over every serial run with faults each content the target ever held is current or in a backup labelled with its digest |
| UpdateProvider.DamageIffTornCited | tools/lion_broker_update_provider.py:330-366 | an update damages a receipt's backup if and only if its backup is torn under a name a receipt already cites |
| UpdateProvider.LaterSecondsKeepReceipts | tools/lion_broker_update_provider.py:330-345 | when each request comes in a later second every receipt names a backup with exactly the content it replaced, whatever faults strike |
| UpdateProvider.TornInSameSecond | tools/lion_broker_update_provider.py:330-350 | within one second there is a run that leaves a receipt without its content |
| SingleFlight.Projection.EnterView | tools/lion_mission_control_v3.py:1508-1511 | a caller leads exactly when the view has no pending entry |
| SingleFlight.OneLeader | tools/lion_mission_control_v3.py:1505-1517 | in every interleaving a view has at most one leader, so at most one read in flight |
| SingleFlight.PendingIffLed | tools/lion_mission_control_v3.py:1508-1516 | a pending entry exists exactly while a leader has not removed it |
| SingleFlight.NobodyStranded | tools/lion_mission_control_v3.py:1512-1517 | a waiting caller's result is there or a reading leader's next step makes it so |
| SingleFlight.JoinsEndedRead | tools/lion_mission_control_v3.py:1508-1517 | a caller joins a read that already ended exactly when it comes between result and removal |
| SingleFlight.JoinAfterResult | tools/lion_mission_control_v3.py:1508-1517 | any two threads have a run in which the second joins the ended read of the first and returns |

## Left out

- LpclAnyText.RewriteAnyIff: values with a backslash, which the replacement template would expand.
- LpclRewrite.RevisionExact: the digests in the new values and the length limit of the successor id are given strings; the database rows around the compilation are not modelled.
- Rag32.ValidateRecords: the manifest, the file set and the file digests around the record loop.
- Deployment.Host.OperatorDeploy: what the service manager, the health probes and the database checks do; only whether they succeed. Directories, modes, owners and leftover temporary files are not modelled.
- Deployment.Host.Install: the same; the order of the digest, envelope and readback checks before the first write is not told apart.
- Reset.Store.ResetOffline: column affinity and collation of SQL comparisons; cascading deletes and triggers, which the schema is taken not to have; the serialised form of the archive.
- ResetPlan.RefusalNamesTable: the order in which tables are listed decides between refusal and planning by an earlier reference, so the converse is not stated.
- ResetCover.ClosedIffCovered: references that name a column twice. The database of an uncovered reference may have dangling references elsewhere.
- Phases.RunKeeps: phase writes from outside the drivers, and the superseding of a parent mission by the child that reconciles it, which is a write to another mission. Progress is a real number, not a rounded one.
- Lease.SpansNeverOverlap: two processes that share one owner id.
- Messages.RunOrdered: titles, timestamps, bindings and the cancelling of hand-offs on delete.
- Census.DeletableIsReachable: a default branch that is rewritten, or that becomes another branch, between two censuses.
- Projection.OrderForgotten: the digests, fixed strings and influence classes that are functions of the modelled rows, the path-classification patterns, which are a parameter, and the optional document-derived output.
- Mailbox.AtMostOnce: two worker processes on one mailbox, and appends to the seen file that are torn.
- Worker.Pass.Once: the building of the prompt and the attachments, which only decides whether the claimed payload is fit. A PASS receipt can be followed by a FAIL receipt when the last transition fails.
- Cooperative.ClaimPayload: the decoding of times and inputs, and the artifact module, which is not part of this model.
- Lifecycle.SupersededIsReadOnly: upper-casing of letters outside ASCII.
- UpdateProvider.RunLosesNothing: writers of the target other than this provider, and a target lost by the file system.
- SingleFlight.NobodyStranded: fairness; a leader that never runs again strands its followers.
- Staging a package from a checkout: two directory renames and a copy, with the same argument as the deployments.
- Deleting a mission's records and creating design revisions: single statements over the tables the reset already covers.
- Sockets, HTTP, kubectl, systemctl, git and Docker calls, command-line clients, user interface text, key provisioning and logging.
- The global scheduler, the execution driver, the operator control and the conversation modules are not part of this model.
- Kubernetes manifests and their transforms: constants without an unbounded domain.
- The race between the runtime observer and commands, and the browser relay: their outcome depends on timing the code does not fix.

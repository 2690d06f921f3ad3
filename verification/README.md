# plan_manager: the cascade transaction and its neighbours

A plan in plan_manager is a tree of steps plus concepts, relations and paragraphs, kept as
working rows in the database. Every change is also recorded in an append-only version
store: node versions (content-addressed snapshots) and revisions that point at their
parent. The published state is the plan's head revision. A *cascade* is a long-running
edit: opening one anchors it at head and gives it a reference of its own; writes inside it
move that reference; committing moves head to the tip if a gate is green; aborting diffs
tip against base and puts the rows back. An admission rule decides which edits may run
directly on head and which need the open cascade, and every write sends dependent steps
back to `needs_review`.

The project models that transaction on one plan, its collaborators in the version store,
the status model and the step tree, and five self-contained loops elsewhere in the
repository: gate-report paging, the cascade preview list, chunked file retrieval, the
operator environment merge and the timing statistics.

`dafny verify dfyconfig.toml` checks everything.

## How it is laid out

- `Rows`, `Sorting`, `Paging`: rows, snapshots, unique keys, the status model; stable
  sorting, filters and text order; page windows.
- `StepTree`, `Regime`, `TreeShape`, `Propagation`: ancestry and `impact_set`, the admission
  checks, what keeps the links a tree, invalidation and status updates. The loops are methods proved against definitions of
  ancestry that do not mention them.
- `VersionStore`, `Restore`: recording, reading a state back, diff, the restore loops.
- `Protocol`, `Outcomes`, `WriteSoundness`, `Runs`, `CascadeLaws`, `Commands`,
  `DirectCommands`, `ConceptCommands`: the database of one plan as a value, its commands as
  transitions, what each transition leaves in every table and when it refuses, the
  invariant of every run, and the theorems about runs.
- `PlanDb`: the tables as the mutable fields of a class `Connection`. Its methods follow
  the program statement by statement, and each is proved to make exactly the transition of
  the value model, refusals and rollbacks included, so the theorems about runs apply to it.
- `Counterexamples`, `ClosingCounterexamples`, `TreeCounterexamples`: inputs and runs on
  which the program falls short of its documentation.
- `GatePages`, `Preview`, `ExportFetch`, `OperatorEnv`, `TimingStats`: the other loops.

A command is one database transaction and one step of a run; commands do not interleave.
The advisory lock counts how often the session holds it. The verdict of
the gate, the identity generated for a new row, the order in which rows are loaded and the
verdict of a field validation are parameters.

## Where the code differs from its documentation

The model follows the code. Each point has an exact condition, and an input or a run of
accepted commands on which it happens.

- `state_at` promises the most recent version of an entity. Within one revision the rows
  come back without an ORDER BY, so if one revision holds two versions of an entity either
  may win (`VersionStore.StateAtDeterministicIff`, `Counterexamples.LaterEntryNeedNotWin`).
  `cascade_write` accepts a write that causes this, one that edits a step and also changes
  that step in its status updates (`Commands.MutatedStepInUpdatesIff`); none of the
  commands passes it one, since an invalidation lists strict descendants only.
- `restore_state` puts rows back before it deletes added ones, so an abort fails when a
  row that is still there holds the `concept_id`, or the step id in its scope, of a row to
  be put back (`CascadeLaws.AbortGetsThroughIff`, `Counterexamples.ReAddedConceptBlocksAbort`).
- An abort leaves `plan.status` as the aborted cascade set it, so a plan whose steps are
  all thawed again can still refuse the next cascade (`CascadeLaws.BeginAgainIff`,
  `ClosingCounterexamples.StatusOutlivesAbort`).
- `step_transition` without a cascade does not ask for admission. While a cascade is open
  it publishes a revision that the commit then drops from the history of head
  (`Runs.CommitFastForwardIff`, `CascadeLaws.UncheckedTransitionIsLost`,
  `Counterexamples.DirectTransitionIsLost`).
- `step_delete` and `step_move` rewrite the `depends_on` of sibling steps without recording
  it, frozen siblings included; rows and history then disagree and an abort does not undo
  it (`Commands.DeleteIsSoundIff`, `Commands.MoveIsSoundIff`,
  `DirectCommands.DirectScrubbingKeepsFrozenTruthIff`, `Counterexamples.DependencyIsLost`,
  `TreeCounterexamples.MoveLosesDependency`, `TreeCounterexamples.FrozenSiblingIsRewritten`).
- Frozen steps and steps below them are also reached by `step_set_status`, when it executes
  an atomic step, and by `step_transition` without a cascade; both change status only
  (`DirectCommands.FrozenTruthChangesIff`).
- `step_create` does not compare the level of the parent, and `step_move` looks at levels
  only. A tactical step created below an atomic one and the atomic step moved below it make
  a cycle, from which the loops over the parent links never end
  (`TreeShape.MoveKeepsTreeIff`, `TreeShape.LevelsKeptIff`, `StepTree.WalkEndsIff`,
  `StepTree.FrontierEmptiesIff`, `TreeCounterexamples.AcceptedCommandsMakeCycle`).
- Committing a cascade that recorded nothing can be refused by the unique index over
  context blocks, or make stale blocks current (`CascadeLaws.GreenCommitRefusedIff`,
  `CascadeLaws.CommitKeepsCurrencyIff`, `ClosingCounterexamples.EmptyCommitIsRefused`,
  `ClosingCounterexamples.EmptyCommitRevivesBlock`).
- The `finally` blocks promise a free lock. After a statement that violated a unique index
  the unlock fails too, and the session keeps the lock until the command closes its
  connection (`PlanDb.Connection.CommitCascade`, `PlanDb.Connection.CascadeCommit`).
- The environment merge parses stripped lines but rewrites unstripped ones, so an indented
  key keeps the overwritten value (`OperatorEnv.WantedValueIff`,
  `OperatorEnv.IndentedKeyIsNotRestored`).

## Model

| member | source | states |
|---|---|---|
| StepTree.AncestorsFormChain | plan_manager/cascade/regime.py:71-78 | two ancestors of one step are equal or one is above the other |
| StepTree.FrozenAncestor | plan_manager/cascade/regime.py:47-79 | for every step from which the parent walk ends: it raises exactly for an unknown step and otherwise answers whether some strict ancestor is frozen |
| StepTree.WalkEndsIff | plan_manager/cascade/regime.py:71-79 | the parent walk ends iff a frozen step is above or no step above is on a cycle |
| StepTree.BreadthFirst | plan_manager/views/dependency_graph.py:372-384 | for every origin that is not on a cycle the frontier loop ends and lists every transitive child exactly once |
| StepTree.FrontierEmptiesIff | plan_manager/views/dependency_graph.py:376-384 | the frontier runs empty iff the origin is not on a cycle |
| StepTree.ImpactSet | plan_manager/views/dependency_graph.py:355-387 | exactly the strict descendants, each once, by level, then parent path, then step id; raises exactly when some descendant's parent path does not resolve |
| StepTree.ParentPathIs | plan_manager/views/step_paths.py:14-27 | the parent path is empty at level 3, the parent's step id at level 4, the grandparent's and the parent's below, and fails exactly when one of them is missing |
| Regime.FrozenAtOrBelowCheck | plan_manager/cascade/regime.py:20-44 | the answer and the errors of the downward check, wherever its walk ends |
| Regime.AdmitStepDirectly | plan_manager/cascade/regime.py:141-153 | wherever the checks end, a step is admitted directly iff its status is direct, nothing at, below or above it is frozen and the paths below it resolve |
| Regime.SubtreeIsOutsideFrozenTruth | plan_manager/cascade/regime.py:53-56 | the subtree of a directly mutable step holds no frozen step and no step below a frozen one |
| Regime.BothChecksAreNeeded | plan_manager/cascade/regime.py:52-56 | dropping either check admits a step that is, or has, frozen truth |
| Regime.DirectEditKeepsFrozenTruth | plan_manager/cascade/regime.py:141-153 | one admitted direct edit inside the target's subtree changes no frozen step and no step below one, and keeps them frozen truth |
| Regime.FrozenTruthOverRuns | plan_manager/cascade/regime.py:141-153 | the same over any run of admitted direct edits |
| TreeShape.NothingAboveItself | plan_manager/views/dependency_graph.py:376-384 | in a tree no step is on a cycle |
| TreeShape.MoveMakesCycleIff | plan_manager/domain/step_ops.py:66-100 | a move puts the step on a cycle iff it goes below the step itself |
| TreeShape.MoveKeepsTreeIff | plan_manager/domain/step_ops.py:66-100 | from a tree, a move leaves a tree iff the new parent is neither the step nor below it |
| TreeShape.LevelsKeptIff | plan_manager/domain/step_ops.py:69-75 | moves, deletions and edits keep every step below a smaller level; a creation does iff its parent is of a smaller level |
| TreeShape.LoopsEndOverRuns | plan_manager/cascade/regime.py:71-79 | over every run whose creations go below smaller levels, whatever is moved, no step is on a cycle and every loop over the links ends |
| TreeShape.CreateThenMoveMakesCycle | plan_manager/commands/step_create_command.py:105-181 | in every such plan without frozen steps, creating a tactical step below an atomic one and moving that below it pass all checks and make both walks endless |
| Propagation.StepInvalidation | plan_manager/cascade/propagation.py:51-67 | wherever its walk ends: on success a step is in the list iff it is strictly below, not at needs_review and not a level-5 step at done or in_progress, each once with needs_review, in impact order; it succeeds iff every parent path below resolves and every status below is one its level can have; which error and exactly when |
| Propagation.UpdatesExactly | plan_manager/cascade/write.py:82-93 | updates of different steps get through iff each step exists and is at its new status or may go there; then each has it, nothing else changed, and exactly the changed ones are recorded, as the rows they now are |
| Propagation.MarkingRows | plan_manager/cascade/write.py:85-93 | marking distinct steps changes their status and nothing else, records exactly those not already marked, and raises exactly on an unknown status among them |
| Propagation.InvalidationFixpoint | plan_manager/cascade/propagation.py:54-66 | after applying the invalidation every step below is at needs_review with all else as it was, unless it is a level-5 step at done or in_progress, which stays as it was; other rows do not move, and recomputing gives the empty list |
| Propagation.MrsInvalidation | plan_manager/cascade/propagation.py:95-108 | exactly the level-3 steps not at needs_review, by step_id; succeeds iff every level-3 step is at draft, ready_for_review, frozen or needs_review |
| Propagation.InlineInvalidationIsMrsInvalidation | plan_manager/commands/concept_add_command.py:163-168 | the commands' unfiltered list and mrs_invalidation give the same rows, the same snapshots and the same refusals; afterwards every level-3 step needs review and no other row moved |
| VersionStore.RecordKeepsChanges | plan_manager/storage/version_store.py:237-243 | a new revision holds exactly the given changes in order on top of its parent, and the store only grows |
| VersionStore.StateAtDeterministicIff | plan_manager/storage/version_ops.py:30-56 | state_at has one answer iff no revision on the walk holds competing versions of an entity |
| VersionStore.AgreesIffEveryStateMaterialises | plan_manager/storage/version_ops.py:10-56 | rows agree with a revision iff every possible result of state_at restores exactly them |
| VersionStore.AgreesUnique | plan_manager/storage/version_ops.py:10-56 | at most one table of rows agrees with a revision |
| VersionStore.HistoryImmutable | plan_manager/cascade/close.py:88-91 | growing the store changes neither the results of state_at at an existing revision nor the rows that agree with it |
| VersionStore.RecordCleanIff | plan_manager/cascade/write.py:150-155 | recording keeps one version per entity and revision iff no entity is recorded with two different snapshots |
| VersionStore.CleanStateUnique | plan_manager/storage/version_ops.py:30-56 | with one version per entity and revision state_at is a function |
| Restore.SnapshotRoundTrip | plan_manager/cascade/restore.py:126-169 | applying the snapshot recorded for a row, over any table, upserts exactly that row, with the snapshot's status for a step |
| Restore.ApplyAllIff | plan_manager/cascade/restore.py:218-219 | the upsert loop gets through iff no row still in place holds a unique key of a row to come, and then leaves the old rows overlaid with the targets |
| Restore.RestorePointwise | plan_manager/cascade/restore.py:214-222 | what the two loops leave for every node, from any rows and for any order of the lists |
| Restore.RestoreRefinesFullReset | plan_manager/cascade/restore.py:207-222 | from rows of the tip, touching only changed, removed and added nodes gives the rows of clearing the plan and reloading the base, whatever the order |
| Restore.RestoreReachesBaseIff | plan_manager/cascade/restore.py:207-222 | from arbitrary rows the base is reached iff every row outside the diff already was the base row |
| Restore.RestoresToOne | plan_manager/cascade/restore.py:214-222 | where state_at has one answer, the outcomes its four walks allow restore_state are the one differential restore |
| Outcomes.BeginExactly | plan_manager/cascade/begin.py:69-98 | each refusal of begin and when it comes; accepted, exactly one open record based at head and its reference are new and nothing else changes |
| Outcomes.UnfreezeExactly | plan_manager/commands/plan_unfreeze_command.py:120-156 | plan_unfreeze gets through iff there is a step, all are frozen, no cascade is open and there is a head; it leaves plan.status thawed and a cascade open, all else as it was |
| Outcomes.CommitExactly | plan_manager/cascade/close.py:43-78 | refused as having no open cascade or a red gate exactly then; accepted, head, reference, record and block tags change as they should and nothing else does |
| Outcomes.AbortExactly | plan_manager/cascade/close.py:97-107 | for every store, an abort that gets through changes rows, drops the reference and records exactly the open cascade as aborted; head, history, plan.status and blocks stay |
| Outcomes.AdmitsExactly | plan_manager/cascade/regime.py:130-157 | kind by kind: inside a cascade iff it is the open one; directly never for concepts, relations and unknown kinds, for paragraphs iff no cascade is open and no step is frozen, for a step iff none is open, it is in draft or ready_for_review, nothing above or below it is frozen and the paths below resolve |
| Outcomes.WriteAcceptedIff | plan_manager/cascade/write.py:147-155 | a write is accepted iff it is admitted, where it asks, and its statements get through |
| Outcomes.WriteExactly | plan_manager/storage/version_store.py:237-268 | what an accepted write leaves in every table: one revision on top of head or tip, head or reference moved to it, plan.status synced only where asked, blocks carried over one by one |
| Outcomes.CarryExactly | plan_manager/views/context_blocks.py:758-773 | a block moves to the new revision iff it was at the old pair and no changed path is its own or that of a definition it embeds; no other field and no other block changes |
| Outcomes.WriteKeepsCurrencyIff | plan_manager/views/context_blocks.py:718-741 | after a write a block is current iff it was before and the write carried paths, none of them the block's own or of a definition in it; without paths none stays current |
| Outcomes.RecordInCascadeExactly | plan_manager/cascade/write.py:158-210 | recording under a cascade is refused exactly for a closed cascade, a missing reference or an update that does not get through, in that order; else one revision on the tip holds the changes and then the updates' snapshots, and nothing of head or plan.status changes |
| Outcomes.StoreBlockExactly | plan_manager/views/context_blocks.py:580-675 | a block is stored under the working pair or at head unless its id is taken or an equal one is there; nothing else changes, and it is current unless it was stored at head while a cascade is open |
| WriteSoundness.EffectReflects | plan_manager/cascade/write.py:147-155 | what a write records stands for the rows it leaves |
| WriteSoundness.RecordingAgreesIff | plan_manager/cascade/write.py:150-155 | recording keeps rows and store in agreement iff no entity is recorded twice differently and every changed row is recorded |
| Runs.InvKept | plan_manager/cascade/close.py:43-107 | every command, accepted or refused, keeps the invariant of the tables |
| Runs.LaterOverRuns | plan_manager/cascade/record.py:127-135 | over every run history only grows, and a committed or aborted cascade is never left |
| Runs.LifecycleOverRuns | plan_manager/cascade/begin.py:69-98 | in every reachable state at most one cascade is open, its reference exists iff it is open, opening never hits a unique index, closing always finds its reference and row, and the commands' re-reads hold |
| Runs.ReferencesFollowCascades | plan_manager/cascade/begin.py:84-95 | the reference of a cascade exists iff that cascade is open |
| Runs.HistoryOverRuns | plan_manager/cascade/close.py:88-91 | over every run the results of state_at at an existing revision never change |
| Runs.CommitAllOrNothing | plan_manager/cascade/close.py:43-78 | a refused commit changes nothing; a successful one needs a green gate, sets head to the tip, closes exactly the open record as committed, leaves no reference, takes the cascade tag off exactly the blocks compiled under it at the tip, and leaves rows, history and plan.status alone |
| Runs.CommitFastForwardIff | plan_manager/cascade/close.py:69-75 | the new head descends from the old one iff head still is the base of the cascade |
| Runs.AbortReachesBase | plan_manager/cascade/close.py:102-105 | an abort that gets through leaves the rows of the base |
| Runs.SyncedExactly | plan_manager/cascade/write.py:147-155 | from a state where rows, store, head and cascade agree, a command keeps them in agreement iff it meets its guard; begin, commit, abort, unfreeze and block storage always do |
| Runs.SyncedOverRuns | plan_manager/cascade/write.py:147-155 | along every run of sound commands the rows are the state of the working revision and head is the base of the open cascade |
| CascadeLaws.AbortGetsThroughIff | plan_manager/cascade/restore.py:218-222 | an abort gets through iff no row still standing holds a unique key of a base row that has to be put back |
| CascadeLaws.ReusedKeyBlocksAbort | plan_manager/cascade/restore.py:218-222 | removing a row and giving its key to a new row inside one cascade makes the abort fail |
| CascadeLaws.AbortRestoresDiffed | plan_manager/cascade/restore.py:214-222 | an abort puts back the base row of every entity the diff names and leaves every other row as it is |
| CascadeLaws.AbortAfterAnyRun | plan_manager/cascade/close.py:97-107 | begin, any writes sound or not, abort: a row is what it was before iff the diff names it or the writes left it so |
| CascadeLaws.AbortUndoesEverything | plan_manager/cascade/close.py:97-107 | begin, any sound writes, abort: rows, head, references, open-cascade lookup and earlier blocks are as before, blocks current exactly as before, history only grown, and the one new record is that of the cascade, aborted, with its base |
| CascadeLaws.BeginAgainIff | plan_manager/cascade/begin.py:71-83 | after the abort a cascade can be opened again iff the aborted one did not leave plan.status frozen |
| CascadeLaws.BeginAfterCommitIff | plan_manager/cascade/close.py:69-78 | after a commit a cascade can be opened iff plan.status was not frozen before it and, unless waived, some step is not frozen or there is no step |
| CascadeLaws.CommitKeepsCurrencyIff | plan_manager/cascade/close.py:69-75 | a commit keeps exactly the current blocks current iff none was tagged as head data at the tip |
| CascadeLaws.GreenCommitRefusedIff | plan_manager/views/context_blocks.py:697-702 | a green commit is refused iff promoting a block would duplicate a stored one |
| CascadeLaws.CommitAfterWriteKeepsCurrency | plan_manager/commands/block_get_command.py:102-107 | once a cascade recorded anything, a green commit gets through and keeps exactly the current blocks current |
| CascadeLaws.UncheckedTransitionIsLost | plan_manager/commands/step_transition_command.py:289-299 | a transition without a cascade, made while one is open, is not in the history of head after the commit |
| Commands.MrsRequestIsSound | plan_manager/commands/concept_remove_command.py:114-144 | a write of one concept or relation with the invalidation of all global steps keeps rows and history together |
| Commands.StepRequestIsSound | plan_manager/commands/step_update_command.py:358-371 | editing a step, and inside a cascade marking what step_invalidation returned for it, keeps rows and history together |
| Commands.StepEditLeaves | plan_manager/commands/step_update_command.py:341-376 | an accepted step edit leaves the step as edited, inside a cascade every step below it at needs_review unless executing or executed, and every other row as it was |
| Commands.MutatedStepInUpdatesIff | plan_manager/cascade/write.py:150-151 | a write that also lists its own step in the status updates keeps them together iff that update is skipped |
| Commands.ScrubRewrites | plan_manager/domain/step_ops.py:130-144 | the scrub rewrites exactly the siblings that depend on the step, each to a different row, and leaves every other row |
| Commands.WithoutTextKeeps | plan_manager/domain/step_ops.py:87 | the other ids stay in order and as often as they were listed |
| Commands.DeleteLeaves | plan_manager/domain/step_ops.py:106-150 | after an accepted delete the step is gone, siblings of its parent and level list its id no more and the rest as before, every other row is as it was |
| Commands.MoveLeaves | plan_manager/domain/step_ops.py:54-100 | after an accepted move to another parent the step has that parent, the new id and no dependencies, its old siblings are scrubbed, and inside a cascade the invalidated steps need review |
| Commands.MoveInPlaceLeaves | plan_manager/domain/step_ops.py:66-67 | a move to the parent the step has changes no row |
| Commands.DeleteIsSoundIff | plan_manager/commands/step_delete_command.py:208-221 | deleting a step keeps rows and history together iff no sibling depends on it |
| Commands.MoveIsSoundIff | plan_manager/commands/step_move_command.py:153-167 | moving a step keeps rows and history together iff it stays under its parent or marks every old sibling that depends on it; off a cycle, iff no old sibling depends on it |
| DirectCommands.DirectScrubbingKeepsFrozenTruthIff | plan_manager/domain/step_ops.py:77-91 | a direct delete or move changes no frozen step and no step below one iff no frozen sibling depends on the step |
| DirectCommands.DirectStepWriteKeepsFrozenTruth | plan_manager/commands/step_update_command.py:341-376 | a direct edit of one step changes no frozen step and no step below one, and they stay frozen truth |
| DirectCommands.StatusRequestIsSoundIff | plan_manager/commands/step_transition_command.py:246-299 | a direct transition or execution keeps rows, history and head together iff no cascade is open |
| DirectCommands.FrozenTruthChangesIff | plan_manager/commands/step_set_status_command.py:61-65 | over every direct command on steps, a frozen step or one below changes iff the command executes, transitions or scrubs it; in the first two only in status, and a transition never touches a frozen step |
| DirectCommands.DirectParagraphIff | plan_manager/cascade/regime.py:154-157 | a checked direct paragraph request is accepted iff no cascade is open, no step is frozen and its statements get through |
| DirectCommands.ChangesOnHeadOverRuns | plan_manager/commands/para_update_command.py:110 | in every state a run reaches, a checked request without a cascade that changes anything is not about concepts or relations, and if about paragraphs no cascade is open and no step is frozen |
| DirectCommands.ExecutesIff | plan_manager/commands/step_set_status_command.py:61-65 | executing on head is for level-5 steps while no cascade is open, and follows exactly the transitions of the status model out of frozen and in_progress |
| DirectCommands.TransitionMirrorsStatus | plan_manager/domain/plan_status_sync.py:50-67 | after a direct transition plan.status is frozen iff there is a step and all are frozen; edits, creations and executions leave it |
| ConceptCommands.AddLeaves | plan_manager/commands/concept_add_command.py:144-188 | concept_add adds its row under a free concept_id, sends every global step to needs_review, changes no other row and records one revision under the cascade |
| ConceptCommands.AddAcceptedIff | plan_manager/commands/concept_add_command.py:130-170 | concept_add gets through iff its cascade is open, every source label without braces is that of a binding paragraph, the fields are well formed, no concept has the name and every global step can be marked |
| ConceptCommands.UpdateAcceptedIff | plan_manager/commands/concept_update_command.py:141-196 | for an existing concept, concept_update gets through iff its cascade is open, labels that are given resolve, the fields are well formed and every global step can be marked |
| ConceptCommands.UpdateLeaves | plan_manager/commands/concept_update_command.py:141-196 | each given field is new, each other field and the name as before; every global step needs review and no other row changes |
| ConceptCommands.RemoveAcceptedIff | plan_manager/commands/concept_remove_command.py:99-145 | for an existing concept, concept_remove gets through iff its cascade is open, no relation starts or ends at it, no step lists it and every global step can be marked |
| ConceptCommands.StripBracesExactly | plan_manager/commands/concept_add_command.py:138 | a label loses exactly the braces at its two ends |
| ConceptCommands.RemoveLeaves | plan_manager/commands/concept_remove_command.py:103-144 | concept_remove drops the row, marks every global step and leaves nothing that names the concept |
| ConceptCommands.RemoveUndoesAdd | plan_manager/commands/concept_remove_command.py:103-144 | adding and removing a concept leaves the rows from before with every global step at needs_review |
| ConceptCommands.ConceptWriteStaysSynced | plan_manager/cascade/write.py:147-155 | an accepted concept command leaves rows, history, head and cascade in agreement |
| PlanDb.Connection.constructor | plan_manager/cascade/record.py:91-107 | an empty plan meets the invariant and agrees with its empty history |
| PlanDb.Connection.InsertNodeVersion | plan_manager/storage/version_store.py:73-91 | reuses an identical version of the entity, else appends one |
| PlanDb.Connection.RecordRevision | plan_manager/storage/version_store.py:237-268 | appends the revision, moves head or the existing reference, and moves to it exactly the blocks of the old pair whose path and embedded definitions the write did not touch, changing nothing else of any block |
| PlanDb.Connection.StateAt | plan_manager/storage/version_ops.py:30-56 | the walk returns a possible state of the revision whatever order the versions are fetched in, and fails exactly for an unknown revision |
| PlanDb.Connection.Diff | plan_manager/storage/version_ops.py:144-163 | added is what only the second state has, removed what only the first has, changed what both have in different versions, each list ascending; fails exactly for an unknown revision |
| PlanDb.Connection.RestoreRow | plan_manager/cascade/restore.py:55-71 | creating or updating amounts to one upsert, refused exactly when a unique index objects |
| PlanDb.Connection.DeleteNode | plan_manager/cascade/restore.py:172-198 | deletes the row if there is one, and refuses only an unknown kind |
| PlanDb.Connection.UpsertAll | plan_manager/cascade/restore.py:217-219 | the first loop makes the upserts in order and fails exactly when one is refused |
| PlanDb.Connection.DeleteAll | plan_manager/cascade/restore.py:220-222 | the second loop deletes exactly the added nodes |
| PlanDb.Connection.RestoreState | plan_manager/cascade/restore.py:207-222 | for every store, one of the outcomes that the answers of its four walks allow, refusals included |
| PlanDb.Connection.InsertCascade | plan_manager/cascade/record.py:59-88 | appends the record, refused exactly while another cascade is open |
| PlanDb.Connection.CloseCascade | plan_manager/cascade/record.py:118-135 | gives the open record the terminal status asked for, its name, base and every other record as they were, and fails otherwise without change |
| PlanDb.Connection.BeginCascade | plan_manager/cascade/begin.py:41-98 | makes the opening transition, table by table, or refuses with its reason and no change; the lock is free again unless a statement violated a unique index |
| PlanDb.Connection.CommitCascade | plan_manager/cascade/close.py:43-78 | makes the committing transition: head at the tip, record committed, reference gone, tip blocks promoted, plan.status, rows and history untouched; or refuses with its reason; the lock is free again unless a statement violated a unique index |
| PlanDb.Connection.AbortCascade | plan_manager/cascade/close.py:97-107 | for every store, leaves an outcome of restoring the base, the record aborted, its reference gone and head, history, plan.status and blocks untouched, or refuses; the lock is free again unless a statement violated a unique index |
| PlanDb.AbortsToOne | plan_manager/cascade/close.py:102-105 | where state_at has one answer, that outcome is the aborting transition of the model, and a refusal its refusal |
| PlanDb.Connection.CascadeCommit | plan_manager/commands/cascade_commit_command.py:87-105 | the command commits, record committed and plan.status untouched, or leaves every table as it was, and holds no lock afterwards |
| PlanDb.Connection.CascadeAbort | plan_manager/commands/cascade_abort_command.py:87-100 | for every store, the command leaves an outcome of restoring the base with the record aborted, or every table as it was when that is refused, and holds no lock afterwards |
| PlanDb.Connection.ApplyStatusUpdates | plan_manager/cascade/write.py:57-93 | the rows and the snapshot list of the updates in order, skipping steps already there; fails exactly on a missing step or an illegal transition |
| PlanDb.Connection.CascadeWriteMany | plan_manager/cascade/write.py:158-210 | records the given changes and the updates' snapshots in one revision under the cascade, moving its reference and nothing of head |
| PlanDb.Connection.CascadeWrite | plan_manager/cascade/write.py:96-155 | the same for one edited node |
| PlanDb.Connection.CheckAdmission | plan_manager/cascade/regime.py:82-157 | wherever its checks end, kind by kind: the open cascade and no other; directly no concept, relation or unknown kind, paragraphs iff no cascade is open and no step frozen, a step iff none is open, its status is direct, nothing above or below it is frozen and the paths below resolve |
| PlanDb.Connection.StepUpdate | plan_manager/commands/step_update_command.py:341-376 | wherever the loops it comes to run end, the command is the one write of the patched step with the invalidation below it, or changes nothing; refused exactly when not admitted or when a step below cannot be invalidated |
| PlanDb.Connection.ConceptAdd | plan_manager/commands/concept_add_command.py:130-190 | the command makes its transition or changes nothing, with the reason of the first check that fails |
| PlanDb.Connection.ConceptUpdate | plan_manager/commands/concept_update_command.py:141-196 | likewise; labels are checked only if given |
| PlanDb.Connection.ConceptRemove | plan_manager/commands/concept_remove_command.py:99-145 | likewise, refused while a relation or a step still names the concept |
| Counterexamples.LaterEntryNeedNotWin | plan_manager/storage/version_ops.py:45-54 | one revision with two versions of a step: state_at may return either |
| Counterexamples.AbortKeepsUnrecorded | plan_manager/cascade/close.py:102-105 | a row that the first write of a cascade changes without recording keeps that change across the abort |
| Counterexamples.AbortLeavesSiblingScrubbed | plan_manager/domain/step_ops.py:138-144 | delete a step inside a cascade and abort: dependent siblings have lost the dependency |
| Counterexamples.DependencyIsLost | plan_manager/domain/step_ops.py:138-144 | a plan of two steps on which exactly this happens, both commands accepted |
| Counterexamples.ReAddedConceptBlocksAbort | plan_manager/cascade/restore.py:218-222 | begin, remove C-001, add C-001, abort: every write is accepted and the abort is refused |
| Counterexamples.RemovalIsUndone | plan_manager/cascade/close.py:97-107 | begin, remove C-001, abort: the premises of the undo theorem hold of this run and the concept is back |
| Counterexamples.DirectTransitionIsLost | plan_manager/commands/step_transition_command.py:289-299 | begin, transition without naming the cascade, commit: head is back at the base while the row keeps the new status |
| ClosingCounterexamples.StatusOutlivesAbort | plan_manager/cascade/begin.py:73-77 | begin, freeze the only step, abort: the step is thawed and the next begin is refused |
| ClosingCounterexamples.EmptyCommitIsRefused | plan_manager/views/context_blocks.py:697-702 | begin, store one block under the cascade and at head, commit: refused |
| ClosingCounterexamples.EmptyCommitRevivesBlock | plan_manager/cascade/close.py:69-75 | begin, store a block at head, commit: the stale block is current |
| TreeCounterexamples.FrozenSiblingIsRewritten | plan_manager/domain/step_ops.py:138-144 | a direct delete, accepted, rewrites a frozen sibling |
| TreeCounterexamples.MoveLosesDependency | plan_manager/domain/step_ops.py:85-91 | a move inside a cascade, accepted, after which an old sibling has lost its dependency and rows and history disagree |
| TreeCounterexamples.AcceptedCommandsMakeCycle | plan_manager/commands/step_create_command.py:165-181 | on a plan of three steps a creation and a move, both accepted on head, make a cycle |
| Paging.PagesGiveAll | plan_manager/commands/cascade_preview_command.py:201-204 | consecutive pages of any positive size that cover a list give back the list |
| GatePages.Paginate | plan_manager/commands/cascade_preview_projection.py:316-344 | the report keeps its verdict, each check its place, id, verdict and real finding count, and gets its stretch of the window; total counts all findings |
| GatePages.PageIsSlice | plan_manager/commands/cascade_preview_projection.py:319-333 | for any limit and offset the windows joined are the flattened findings sliced at [offset, offset + limit) |
| GatePages.PagesReconstructReport | plan_manager/commands/cascade_preview_projection.py:319-339 | joining a check's windows over offsets 0, limit, 2 limit and so on gives back exactly its findings |
| Preview.NeedsReviewStepsExactly | plan_manager/cascade/preview.py:38-51 | every step at needs_review, each once, ascending by artifact path |
| Preview.BuildPreviewEntries | plan_manager/cascade/preview.py:116-173 | the five parts classified and stably sorted; raises exactly when a needed artifact path does not exist |
| Preview.PreviewConserves | plan_manager/cascade/preview.py:129-173 | the list is an ordered permutation of its five parts: added, removed, changed, to review, findings; entities by path then name, findings by check, path, message; what it shows of one category is that part, stably sorted |
| Preview.PartsExactly | plan_manager/cascade/preview.py:129-170 | each part lists its source in order: a step with its path and status, another entity with the type the registry has, changed fields only for changed ones |
| Preview.ArtifactPathIs | plan_manager/verify/gate_data.py:22-27 | the path is the step ids from the global step down, joined with slashes, and fails exactly when one above is missing |
| Preview.Summarize | plan_manager/commands/cascade_preview_projection.py:360-369 | the counting loop counts the entries of each category |
| Preview.SummaryIsTruth | plan_manager/commands/cascade_preview_projection.py:347-369 | the summary of the built list is the five input sizes and adds up to the number of entries |
| Preview.FilterIsConjunction | plan_manager/commands/cascade_preview_projection.py:156-168 | the passes keep exactly the entries that meet every given filter, in order |
| Preview.PagesOfFiltered | plan_manager/commands/cascade_preview_command.py:193-204 | consecutive pages of a filtered list give back the matching entries in order |
| ExportFetch.FetchExportFile | client/plan_manager_client/export_fetch_chunks.py:83-129 | for every conversation that ends, the outcome is the verdict on the first answer that errs, changes its declaration, stalls or ends the file; a bad limit makes no call |
| ExportFetch.EndsIffVerdict | client/plan_manager_client/export_fetch_chunks.py:88-114 | the loop ends iff some answer gets a verdict; otherwise every answer is steady for ever |
| ExportFetch.VerdictExactly | client/plan_manager_client/export_fetch_chunks.py:88-129 | after steady answers, which answer goes on, ends the file or fails, and with which error |
| ExportFetch.GotMeansWhole | client/plan_manager_client/export_fetch_chunks.py:93-129 | a returned file has the one size and digest every answer declared, has that length and is the chunks joined in order |
| ExportFetch.OutcomeIsUnique | client/plan_manager_client/export_fetch_chunks.py:88-114 | a conversation has one outcome |
| ExportFetch.ServedFetchEnds | client/plan_manager_client/export_fetch_chunks.py:88-114 | against a server that slices a file for as many calls as needed the loop ends, with call max(1, ceil(size / limit)) and exactly the file |
| ExportFetch.FetchIsRoundTrip | client/plan_manager_client/export_fetch_chunks.py:62-129 | such a server is one the loop ends against, and any call it can end with is that one |
| ExportFetch.FetchServedFile | client/plan_manager_client/export_fetch_chunks.py:62-129 | the call itself, with nothing asked but a slicing server: exactly the needed calls and exactly the file |
| ExportFetch.FetchExportFiles | client/plan_manager_client/export_fetch_chunks.py:132-157 | for conversations that end, one outcome per file in the order given, and the first failure otherwise |
| ExportFetch.ExportReadServesAll | plan_manager/commands/export_read_command.py:170-184 | export_read, answering every call alike, is such a server |
| ExportFetch.FilesRoundTrip | client/plan_manager_client/export_fetch_chunks.py:132-157 | against a server that serves all files, what the call may return is exactly all of them, whole and in order |
| ExportFetch.FetchServedFiles | client/plan_manager_client/export_fetch_chunks.py:132-157 | the call itself against such a server |
| OperatorEnv.EntryMatchesUnlessIndented | packaging/lib/planmgr_merge_operator_env.py:43-75 | a line that parses to a key without matching unstripped starts with whitespace; a matching one parses to the same key |
| OperatorEnv.SpeakerDecides | packaging/lib/planmgr_merge_operator_env.py:42-49 | the last line that speaks for a key decides its value |
| OperatorEnv.ParseEnv | packaging/lib/planmgr_merge_operator_env.py:39-49 | the loop gives every key the value of the last line that speaks for it |
| OperatorEnv.MergeOperatorEnvText | packaging/lib/planmgr_merge_operator_env.py:64-84 | the loop computes the line-by-line merge, or returns the current text untouched |
| OperatorEnv.RejoinIsIdentity | packaging/lib/planmgr_merge_operator_env.py:83-84 | a text made by joining lines survives being split and joined again |
| OperatorEnv.MergeIsIdempotent | packaging/lib/planmgr_merge_operator_env.py:64-84 | merging twice is merging once, for all texts |
| OperatorEnv.MergedValues | packaging/lib/planmgr_merge_operator_env.py:72-84 | the parsed result has the keys of the current file, with the previous value exactly for restorable keys whose deciding line starts in column one |
| OperatorEnv.ShouldRestoreIff | packaging/lib/planmgr_merge_operator_env.py:52-61 | the merge restores iff registration is off and host and URL are blank now, and before registration was on or one of the five keys had another value |
| OperatorEnv.RestoredKeys | packaging/lib/planmgr_merge_operator_env.py:12-81 | a key takes the previous value iff it is not PLANMGR_IMAGE_VERSION, the previous file has it and its deciding line starts in column one |
| OperatorEnv.WantedValueIff | packaging/lib/planmgr_merge_operator_env.py:44-81 | a key gets its wanted value iff its deciding line starts in column one or there is nothing to restore |
| OperatorEnv.OtherLinesStay | packaging/lib/planmgr_merge_operator_env.py:73-81 | lines that set no restored key keep content and position, but for an empty last line without a final newline |
| OperatorEnv.IndentedKeyIsNotRestored | packaging/lib/planmgr_merge_operator_env.py:44-81 | for every key outside the trigger, an indented line keeps the overwritten value although the restore happens |
| TimingStats.PercentileInRange | plan_manager/commands/command_timing_stats_command.py:24-32 | a percentile lies between the first and the last value and reaches them at 0 and 100 |
| TimingStats.PercentileAtValue | plan_manager/commands/command_timing_stats_command.py:28-32 | a percentile whose rank is whole is the value of that rank |
| TimingStats.PercentileExactly | plan_manager/commands/command_timing_stats_command.py:28-32 | with the rank at index i and a fraction x, the percentile is (1 - x) times value i plus x times the next |
| TimingStats.PercentileMonotone | plan_manager/commands/command_timing_stats_command.py:28-32 | percentiles are monotone in the percentage, across index boundaries too |
| TimingStats.Group | plan_manager/commands/command_timing_stats_command.py:82-84 | the grouping loop gives every command exactly its metrics, in order |
| TimingStats.CommandTimingStats | plan_manager/commands/command_timing_stats_command.py:82-99 | one row per command, sorted by name, then the page and the total |
| TimingStats.EveryRow | plan_manager/commands/command_timing_stats_command.py:86-97 | in every row p50 <= p95 <= max, max is the longest duration of the command, and direct and queued calls are among the counted ones |
| TimingStats.RowExactly | plan_manager/commands/command_timing_stats_command.py:85-97 | the counts of a row are those of the metrics with its name, and with its name and mode; p50 and p95 are the percentiles of their sorted durations |
| TimingStats.CallsAddUp | plan_manager/commands/command_timing_stats_command.py:85-97 | call counts add up to the number of metrics, and no command has two rows |

## Left out

- PlanDb.Connection.StepUpdate: the paths of the blocks that survive are a parameter; computing them from step paths is not part of this model.
- TimingStats.PercentileMonotone: durations and percentages are reals; floating-point rounding is not modelled.
- Only one plan: rows carry no plan identity, and an entity identity lives in one table at a time.
- Revisions, node versions and cascades are numbered in order of insertion; a generated UUID never repeats.
- The content of the gate, the score and the external file probe: a commit takes their verdict.
- The field validation of concepts and steps, and the check that concept references of a step exist: verdicts or left to the caller.
- `import_hrs`, which replaces paragraphs without tombstones, and project binding, which clears project ids without a revision: both leave rows and history apart in a way the model does not cover.
- `revert`, `log`, `checkout_read` and the field-level detail of `diff`.
- Runtime rows, embeddings and audit records attached to steps, and what deleting a step does to them.
- The bodies of recursive delete and paragraph commands, and the context block that step creation asks of the parent: their writes are covered as requests, with the guard of `Runs.SyncedExactly`.
- Interleavings of commands.
- Tree commands after an abort: the rows go back to those of an earlier state of the run.
- SQL, JSON, UUID text, base64, timestamps; parsing of request parameters; schemas and metadata.
- Bug, fix and escalation lifecycles, listing commands, the client facade, archive handling, server start-up.

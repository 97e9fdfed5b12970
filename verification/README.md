# Laurelin: verified models of its protocols and small compilers

Laurelin is a versioned data platform. Most of what it must get right is not in the engines it drives but in a
handful of protocols and compilers of its own: analysis cells compiled into one governed query, a version log that
many writers append to, changes that need a second approver, one policy spelled for three SQL engines, graphs
that must stay acyclic, syncs that must not lose rows. This project models those and proves what they keep, for
every input, every run or every reachable state. Where a promise is not true of the code as it stands, the
project says exactly when it is, and gives an input on which it fails.

`dafny verify dfyconfig.toml` checks everything. Nothing of the original program is executed.

## How it is organised

| modules | part of the system |
|---|---|
| `Common`, `Graphs` | optional values, decimal text, Python's `strip` and string order; directed graphs and the three-colour walk both graph validators share |
| `FlowIR`, `Cells`, `RawCells`, `Refusals`, `CellMeaning`, `FlowMeaning`, `CellNames` | the validator of a flow's node graph; the compiler from cells to one flow; what it makes of the cells as they were submitted, and what its refusals say; what cells and flows mean and why compiling preserves it; flows as equations; when namespaced ids collide |
| `Revalidation`, `AnalysisStore`, `EditMeaning` | incremental revalidation and the stored analysis under add, update, delete and whole PUT; what each edit does with the fields that were sent |
| `VersionLog`, `VersionRuns`, `VersionRaces`, `Catalog` | the version log as interleaved steps of many writers, its runs, what racing writers lose and how often they retry, and the writing methods as one process runs them |
| `Approvals`, `PolicyDiff`, `RoleApprovals` | the change-approval protocol; two kinds of the comparator it trusts; the protocol run with the second of them |
| `PolicySql`, `PolicyMeaning`, `Escaping`, `DecimalText` | a row and column policy in memory and as one SELECT per engine; which rows and cells a user then sees, said in the policy's own terms; quoters and literals against the engines' lexers; decimal text |
| `WorkspaceDag`, `Lineage`, `Iceberg` | cycle refusal on save, the lineage projection, fast-forward branches |
| `SourceSync`, `Throttle`, `Health` | incremental syncs, login throttling, health and alerts |
| `Splitter`, `Endpoint` | cutting a DDL script into statements; host and port out of a connection string |

The source's mutating code is modelled as classes and loops; each such method is proved to compute a function of
its inputs and old state, and the theorems are about that function. For each main operation one of them, named
`...Exactly`, says what it does without the helpers that compute it: which inputs it accepts, what it then leaves,
and what it leaves alone. Clocks, random ids, the comparator, policy subjects, the meaning of a step, an engine's text
of a value and what other writers do are parameters.

## What the models found

- Tier A and the cell compiler do not ask whether a fragment's terminal is one of its own steps. Compilation still
  yields a flow with exactly one result, but the cell itself has a result only if every terminal above it is local
  (`CellMeaning.MeaningPreserved`), and two cells can read each other's steps (`CellNames.TerminalsCanCross`).
- With auto-compaction on, or set to text that is no number, `append` can delete a part that a registered version
  names: "a registered version is never missing" holds if and only if it is off
  (`VersionRuns.NoDanglingIffCompactionOff`).
- Concurrent appends can drop each other's rows (`VersionRuns.ConcurrentAppendsLose`): an append, a first one to an
  empty dataset included, extends the version before it if and only if nobody published since it began
  (`VersionRaces.AppendLosesNothingExactly`). A compaction takes no compare-and-set either: whatever others publish
  while it runs, it leaves the dataset as it was when it began (`VersionRaces.CompactionRestoresItsBase`).
- A role change counts as tightening when the rank falls, but a grant names one role exactly: a demotion can widen
  access. Four eyes holds over role changes if and only if what the grant list gives to viewers it also gives to
  everyone or to editors (`RoleApprovals.FourEyesOverRolesExactly`); on any other list, such as a single grant to
  viewers (`RoleApprovals.ViewersOnlyListIsUncovered`), one administrator's submission widens access with the mode on
  (`RoleApprovals.OneAdminLoosens`).
- The sync's high-water mark is compared as text: an integer cursor that crosses from 9 to 10 between two chunks
  leaves the mark behind and rows are taken twice (`SourceSync.TextOrderRepeatsRows`). A run takes each row exactly
  once if and only if every step of it was clean (`SourceSync.RunIsExactlyOnceExactly`), and the data itself tells
  whether the next sync is safe however it is cut (`SourceSync.EveryChunkingExactly`).
- A table whose cursors are all null is appended whole by every sync (`SourceSync.NullCursorsRepeatRows`), and each
  crash between the version and the mark costs one more copy of the new rows (`SourceSync.CrashesRepeatRows`). A row
  that comes late, with a null cursor or one not above the mark, is never taken
  (`SourceSync.LateRowsAreNeverSynced`).
- An over-long password is counted before the expired lock is cleared, so one such guess is free
  (`Throttle.OverlongGuessIsFree`): five refusals a window is the bound if and only if passwords are no longer than the
  limit (`Throttle.FivePerWindowExactly`).
- An alert is closed if and only if the first status after the last red one is healthy; by way of unknown, a dataset
  recovers in silence (`Health.RecoveryExactly`).
- In memory, a policy that denies every row still refuses the read when a mask names a mistyped column; the SQL
  path answers with no rows. `PolicySql.SidesDifferExactly` says that this is the only difference, and
  `PolicySql.DeniedReadDiffers` is such a read.
- The endpoint pattern's `$` accepts one newline after the authority (`Endpoint.NewlineAfterHostIsAccepted`); apart
  from that `Endpoint.ParsesExactly` is the grammar one would expect.

## Model

| member | source | states |
|---|---|---|
| Graphs.DepthFirst.Explore | laurelin/api/routes.py:1443-1478 | the recursive visitor that recolours nodes in place does what the functional walk `Visit` does, with the same refusal |
| Graphs.WalkExact | laurelin/api/routes.py:1443-1480 | the walk fails if and only if a missing node or a cycle can be reached; otherwise it lists exactly what can be reached, each node once and after its successors |
| Graphs.VisitLocal | laurelin/api/routes.py:1443-1478 | two graphs that agree on a closed set give the same walk inside it |
| FlowIR.ValidateNodes | laurelin/transforms/flow_ir.py:893-929 | the node loop: first refusal, or all ids seen and all parameters normalised |
| FlowIR.ValidateEdges | laurelin/transforms/flow_ir.py:961-973 | the edge loop: first unresolved or self input |
| FlowIR.Validate | laurelin/transforms/flow_ir.py:861-1005 | the whole validator on nodes that are objects |
| FlowIR.FromJsonExact | laurelin/transforms/flow_ir.py:861-1005 | accepted if and only if every step is valid and the graph hung from the terminal is a connected DAG with distinct ids; the result is the steps in order, parameters normalised |
| FlowIR.FlowExactly | laurelin/transforms/flow_ir.py:861-1005 | the same step by step: every id of the characters and length the pattern names, every kind known and with as many inputs as it takes, parameters its rule passes, ids distinct, inputs and terminal steps of the flow, no chain of steps that comes back, and a chain from the terminal to every step; what is accepted is those steps in order with the parameters the rule made |
| Cells.EmitOne | laurelin/api/routes.py:1486-1534 | one step: its inputs resolved to namespaced ids, or the first refusal |
| Cells.EmitInto | laurelin/api/routes.py:1483-1541 | one cell: all its steps, and exactly its declared inputs read |
| Cells.EmitOrder | laurelin/api/routes.py:1480-1541 | all cells in walk order |
| Cells.AnalysisClosure | laurelin/api/routes.py:1423-1553 | the compiler as it runs, walk, emission and validation, against its specification |
| Cells.ClosureExact | laurelin/api/routes.py:1423-1553 | compilation succeeds if and only if no missing cell, SQL cell or loop is reachable, every reachable cell is sound and Tier A accepts the flattening of the target's ancestors, which is the result |
| Cells.AncestorsExact | laurelin/api/routes.py:1443-1480 | the emitted cells are exactly the target's ancestors, each once, upstream first |
| RawCells.FragmentExactly | laurelin/api/routes.py:1404-1420 | a cell's fragment is the steps and the terminal that were submitted, all of them objects, in order, and nothing else; any other submission has none |
| RawCells.CellSoundExactly | laurelin/api/routes.py:1483-1541 | a cell is sound if and only if every submitted step is named, reads only steps of the cell or declared shaping cells, and every declared cell is read |
| RawCells.CompiledExactly | laurelin/api/routes.py:1423-1553 | every step submitted in the target or anything it reads is one node of the flow, carrying that step's own kind, its own normalised parameters and its inputs in order; the flow has no other node, and its terminal is the target's |
| RawCells.AcceptedExactly | laurelin/api/routes.py:1423-1553 | a cell compiles if and only if no missing cell, SQL cell or loop can be reached from it, everything it reaches was submitted sound, and Tier A accepts what comes of it |
| Refusals.RefusalsAreTrue | laurelin/api/routes.py:1443-1541 | whatever the compiler answers when it refuses is so: the cell is the target or one it reads, and the cell, step and input named have the fault given: no such cell, a SQL cell, its own output, a loop, no readable fragment, a bad step id or input list, an input undeclared, unknown or never read |
| Refusals.FlowRefusalsAreTrue | laurelin/transforms/flow_ir.py:889-1005 | whatever Tier A answers when it refuses is so of the steps as they were handed in: no step, a bad or repeated id, an unknown kind, a wrong number of inputs, parameters its rule does not pass, a terminal or an input that is no step, a step that reads itself, a chain that comes back to the step named, or a step not read from the terminal |
| Refusals.WalkStops | laurelin/api/routes.py:1443-1478 | where the walk stops: at an id that is no node, wanted by a node that can be reached, or at a node on a way round through the one that wanted it |
| CellMeaning.FlowMeaningUnique | laurelin/api/routes.py:1543-1553 | a flow has at most one result, for any meaning of the step kinds |
| FlowMeaning.FlowMeansExactly | laurelin/api/routes.py:1543-1553 | a well-formed flow read as equations, each step's value what its kind makes of its inputs' values in order, has a solution, and in every solution the terminal's value is the flow's result |
| CellMeaning.MeaningPreserved | laurelin/api/routes.py:1423-1440 | for every meaning of the step kinds: a compiled flow has exactly one result, evaluating the cells recursively gives that result and no other, and gives one if and only if every ancestor's terminal is one of its own steps |
| CellNames.ServerIdsNamespace | laurelin/api/routes.py:1530-1534 | namespacing is injective on server-assigned cell ids |
| CellNames.ServerIdsNeverCollide | laurelin/api/routes.py:1482-1534 | cells without `_` in their ids never collide across cells once flattened |
| CellNames.TerminalsCanCross | laurelin/api/routes.py:1404-1420 | three concrete cells that compile although two terminals are foreign, and the flow reads the other cell's steps |
| Revalidation.GrowOnce | laurelin/api/routes.py:1752-1760 | one pass adds only dependents of the change, and adds one or proves saturation |
| Revalidation.AffectedCells | laurelin/api/routes.py:1748-1760 | the growing loop ends and computes exactly the transitive dependents |
| Revalidation.CheckAnalysisCells | laurelin/api/routes.py:1727-1783 | the save-time check accepts exactly when every cell it must look at closes, compiles and binds |
| Revalidation.ClosureLocal | laurelin/api/routes.py:1423-1553 | a cell's closure depends only on its ancestors |
| Revalidation.UnaffectedKeepsValidity | laurelin/api/routes.py:1741-1760 | a cell that does not depend on the change is exactly as valid after it as before |
| Revalidation.IncrementalIsFull | laurelin/api/routes.py:1727-1783 | from a valid analysis, checking only the dependents accepts exactly the edits a full check accepts |
| AnalysisStore.AbsenceMeansUnchanged | laurelin/api/routes.py:1803-1849 | a field that is not sent keeps its stored value; with `EditMeaning.UpdateExactly`, one that is sent has the value sent |
| AnalysisStore.NextFreeExact | laurelin/api/routes.py:1938-1945 | the new id is the first free server id at or after the counter |
| AnalysisStore.MergeCells | laurelin/api/routes.py:1796-1862 | the merge loop: ids assigned, duplicates refused, the counter moved past every server-shaped id |
| AnalysisStore.AdvanceCounter | laurelin/api/routes.py:1857-1861 | the counter loop |
| AnalysisStore.NextServerNumber | laurelin/api/routes.py:1941-1945 | the search loop ends, at the first free number |
| AnalysisStore.EditKeepsSound | laurelin/api/routes.py:1877-2005 | every accepted PUT, add, update or delete leaves distinct ids, every shaping cell valid and the counter past every server-shaped id, and never lowers the counter |
| AnalysisStore.RunKeepsSound | laurelin/api/routes.py:1877-2005 | the same along every run of submitted edits, accepted or refused |
| AnalysisStore.AddedIdIsNew | laurelin/api/routes.py:1938-1945 | an added cell's id was no cell's id at any earlier point of the run, deleted or not |
| AnalysisStore.AnalysisRoutes.UpsertAnalysis | laurelin/api/routes.py:1878-1905 | the PUT route is the specified edit, accepted or refused, and keeps the analysis sound |
| AnalysisStore.AnalysisRoutes.AddCell | laurelin/api/routes.py:1921-1954 | the add route, likewise |
| AnalysisStore.AnalysisRoutes.UpdateCell | laurelin/api/routes.py:1958-1983 | the update route, likewise, checking only dependents |
| AnalysisStore.AnalysisRoutes.DeleteCell | laurelin/api/routes.py:1987-2005 | the delete route, likewise, refused while a cell reads it and checking nothing else |
| EditMeaning.ShapedExactly | laurelin/core/models.py:596-617 | a cell is accepted if and only if it has visible SQL or a flow and not both, inputs and top-N only beside a flow, and a top-N from 1 to 10000 |
| EditMeaning.CellNameExactly | laurelin/api/routes.py:1270-1270 | an id is accepted if and only if it is a lower-case letter and at most 31 letters, digits and underscores, with at most one newline behind |
| EditMeaning.CellValidExactly | laurelin/api/routes.py:1761-1783 | a shaping cell is valid if and only if it compiles, its flow binds and every column its chart names is one of the flow's |
| EditMeaning.UpdateExactly | laurelin/api/routes.py:1958-1983 | the cell keeps its place and its id and has every field that was sent and the stored one for every field that was not; it is saved if and only if it is well shaped and every cell of the analysis is valid with it; no other cell changes |
| EditMeaning.AddExactly | laurelin/api/routes.py:1921-1954 | one cell more, at the end, with the first free server id and what was sent; saved if and only if there were fewer than fifty cells, it is well shaped and every cell is valid; the counter is then one past its number |
| EditMeaning.DeleteExactly | laurelin/api/routes.py:1987-2005 | refused while any cell lists the id; otherwise exactly that cell is gone, the others as they were and in order |
| EditMeaning.PutExactly | laurelin/api/routes.py:1796-1905 | every cell has what was sent over the stored cell of its id, or over nothing; saved if and only if there are at most fifty, ids are well formed and distinct, every cell is well shaped and every one is valid; the counter is just past every id given out or in use |
| VersionLog.NextKeeps | laurelin/catalog/catalog.py:180-255 | every step of every writer keeps: versions are exactly 1..n, every registered manifest's parts exist and its row count is their rows, no candidate is past the next number, and readable versions read the same rows; the one exception is a clean-up that deletes a published part |
| VersionLog.EnabledExactly | laurelin/catalog/catalog.py:180-520 | what can happen at any moment: an operation may begin, a writer may take the step its stage is at, fail in it or crash, and a compaction needs a newest version that can be read |
| VersionLog.StepChanges | laurelin/catalog/catalog.py:180-255 | a version is registered by an insert whose number is free, with the inherited parts and then the writer's own, and by nothing else; a part is stored by a write and deleted by a clean-up, and by nothing else |
| VersionLog.StageExactly | laurelin/catalog/catalog.py:212-253 | reading aims at the number after the newest, or gives up under compare-and-set over another; an insert commits where its number is free, and where it is taken aims one further, or gives up under compare-and-set; what follows a commit depends on the compaction setting |
| VersionLog.BeginExactly | laurelin/catalog/catalog.py:257-520 | a write begins over nothing, an append over the newest version if there is one, a compaction with the newest rows, each with a fresh key |
| VersionLog.ManifestReads | laurelin/catalog/catalog.py:221-233 | what a writer is about to register reads its base's rows and then its own |
| VersionRuns.RunKeeps | laurelin/catalog/catalog.py:180-520 | with auto-compaction off, along any run of any writers with failures and crashes, the invariant holds and every version reads the same rows for ever |
| VersionRuns.ReachableIsSafe | laurelin/catalog/catalog.py:180-520 | the invariant in every reachable state |
| VersionRuns.CompareAndSet | laurelin/catalog/catalog.py:212-253 | a compare-and-set writer over base e publishes e + 1 if and only if e is the newest version at that step, and cleans up otherwise |
| VersionRaces.ReachableCompareAndSet | laurelin/catalog/catalog.py:212-253 | the same in every reachable state and under every compaction setting: the insert publishes e + 1 if and only if e is the newest version, and otherwise only the clean-up follows |
| VersionRuns.Publication | laurelin/catalog/catalog.py:221-255 | publishing adds exactly the next version, reading the base's rows and then the writer's own |
| VersionRuns.AppendAlone | laurelin/catalog/catalog.py:345-401 | sequentially, an append reads as the old rows and then the delta; as the delta alone on a dataset with no version |
| VersionRuns.CompactAlone | laurelin/catalog/catalog.py:493-520 | sequentially, compaction reads as the same rows, in one part |
| VersionRuns.WriteAlone | laurelin/catalog/catalog.py:257-293 | a write reads as its own rows |
| VersionRuns.FailedValidationLeavesNothing | laurelin/catalog/catalog.py:257-293 | a failed validation leaves versions and parts exactly as they were |
| VersionRuns.ConcurrentAppendsLose | laurelin/catalog/catalog.py:345-401 | from any state with a version there is a run of two appends after which the newest version lacks the first one's rows |
| VersionRuns.NoDanglingIffCompactionOff | laurelin/catalog/catalog.py:384-401 | "every registered version's parts exist" holds in all reachable states if and only if auto-compaction is off; with a number of parts or with a setting that is no number there is a run that breaks it |
| VersionRaces.LoggedStep | laurelin/catalog/catalog.py:180-520 | under every compaction setting, every step keeps versions exactly 1..n, candidates and bases in order, and each version's last part out of all older versions |
| VersionRaces.ReachableManifestsDiffer | laurelin/catalog/catalog.py:180-255 | in every reachable state no two versions have the same parts |
| VersionRaces.RetriesBounded | laurelin/catalog/catalog.py:234-255 | under every compaction setting, a writer has retried at most once per version others published since it read the number, and exactly as often when its candidate is free |
| VersionRaces.PublicationExtendsExactly | laurelin/catalog/catalog.py:221-255 | a publication extends the newest version, or the empty dataset, by the writer's part if and only if the newest version is the writer's base |
| VersionRaces.AppendLosesNothingExactly | laurelin/catalog/catalog.py:345-468 | any append, begun and later published with any steps of others between, extends the newest version, or the empty dataset, by its own part if and only if nobody published since it began |
| VersionRaces.AppendReads | laurelin/catalog/catalog.py:345-468 | in rows, from any reachable state with auto-compaction off: the appended version reads as the rows the append began over and then its own, whatever others published in between |
| VersionRaces.ExtendedReads | laurelin/catalog/catalog.py:221-255 | a publication over the newest version reads as the newest rows and then the writer's own |
| VersionRaces.CompactionRestoresItsBase | laurelin/catalog/catalog.py:493-520 | under every compaction setting, a compaction begun and later published with any steps of others between leaves the dataset reading as it did when it began, in one part |
| Catalog.DatasetCatalog.AddVersion | laurelin/core/db.py:846-864 | the insert is refused exactly when the number is taken, and otherwise extends the history by one table |
| Catalog.DatasetCatalog.CommitVersion | laurelin/catalog/catalog.py:180-255 | the commit loop, whatever rivals publish in between: it ends; without compare-and-set it is refused only by its own check and takes the number after everything that overtook it; with one it goes through if and only if the base is the newest version and nobody publishes first; the history is the old one, what rivals published, and the inherited rows followed by its own; refused, nothing of its own is left |
| Catalog.DatasetCatalog.Claim | laurelin/catalog/catalog.py:234-255 | the insert loop by itself: the next number, and the one after on every collision, or giving up at the first under compare-and-set |
| Catalog.StreamedConcat | laurelin/catalog/catalog.py:295-343 | a stream delivers its chunks' rows one after the other, and nothing when one cannot be read |
| Catalog.DatasetCatalog.Write | laurelin/catalog/catalog.py:257-293 | the new version reads exactly the table; accepted exactly as its commit is, whatever rivals publish; refused, no part of its own is left |
| Catalog.DatasetCatalog.WriteBatches | laurelin/catalog/catalog.py:295-343 | the streamed write; no chunk or a broken chunk is an error that leaves nothing |
| Catalog.DatasetCatalog.Append | laurelin/catalog/catalog.py:345-401 | the base's rows and then the delta, writing only the delta's part; refused only by its own check, whatever rivals publish |
| Catalog.DatasetCatalog.AppendBatches | laurelin/catalog/catalog.py:403-468 | the streamed append; nothing new returns the current version and changes nothing |
| Catalog.DatasetCatalog.Read | laurelin/catalog/catalog.py:836-846 | reads exactly the history's entry, or refuses a number never published |
| Catalog.DatasetCatalog.Compact | laurelin/catalog/catalog.py:493-520 | publishes the rows that were newest again as one part; it always goes through, whatever rivals publish |
| Approvals.FourEyes | laurelin/core/approvals.py:226-336 | from any state with the second-approver mode on, along any run of non-local steps, the first step that widens access or turns the mode off is an approval by an id other than the recorded non-empty proposer's, of a pending record whose diff still holds; for a comparator whose tightenings never widen |
| Approvals.FourEyesExactly | laurelin/core/approvals.py:226-336 | that hypothesis is exactly what is needed: four eyes holds on every run if and only if no edit called tightening widens access |
| RoleApprovals.RolesSoundExactly | laurelin/core/policy_diff.py:405-418 | the comparator of role changes is sound over a grant list if and only if what the list gives to viewers it also gives to everyone or to editors |
| RoleApprovals.FourEyesOverRolesExactly | laurelin/core/policy_diff.py:405-418 | four eyes holds over all runs of role changes if and only if the grant list is so covered |
| RoleApprovals.OneAdminLoosens | laurelin/core/approvals.py:226-277 | for any other grant list: with the mode on, one administrator's demotion of an editor is applied at once and widens what that user can do |
| RoleApprovals.ViewersOnlyListIsUncovered | laurelin/core/permissions.py:327-345 | such a list: one grant, to the role viewer |
| Approvals.TwoPeople | laurelin/core/approvals.py:226-336 | when nothing is pending at the start and submissions carry ids, that approval is of a change a different id asked for earlier in the run |
| Approvals.RunsKeepDecisions | laurelin/core/approvals.py:279-384 | over every run a decided proposal never changes and no record loses its change or author |
| Approvals.RecordsHaveAuthors | laurelin/core/approvals.py:226-275 | every record was there at the start or was filed by a step that asked for exactly that |
| Approvals.AppliedExactlyOnce | laurelin/core/approvals.py:226-384 | over every run a record ends up approved if and only if some step of the run applied its change, and then exactly one did |
| Approvals.ChangesAreRecorded | laurelin/core/approvals.py:226-336 | whenever a step changes tables or mode without raising, exactly one record became approved and the new state is what its change makes of the old |
| Approvals.OutcomeMeans | laurelin/core/approvals.py:226-446 | an outcome says what happened: applied, the change asked for was written, tables or mode, and its record says so; raised, it was begun and no record claims it; queued, done or refused, tables and mode are as before |
| Approvals.ApproveExactly | laurelin/core/approvals.py:279-338 | an approval is refused unless the record is pending and not the approver's own; it supersedes a record whose verdict no longer holds; otherwise it writes the record's change, and the record is approved and applied if and only if the write completes |
| Approvals.SubmitExactly | laurelin/core/approvals.py:226-277 | a loosening under the mode, not made locally, waits as pending; anything else is written at once and recorded under the ticket that says why |
| Approvals.ClosingExactly | laurelin/core/approvals.py:340-384 | rejecting is for any pending record, withdrawing for one's own or nobody's; each closes that record and changes nothing else |
| Approvals.SwitchExactly | laurelin/core/approvals.py:386-409 | the switch is a submission like any other, but is not turned on where fewer than two administrators could approve |
| Approvals.RunIsReplay | laurelin/core/approvals.py:226-446 | over every run in which no write raised, tables and mode are the changes of the applied records carried out in the order they were approved |
| Approvals.ApprovalService.FileRecord | laurelin/core/approvals.py:129-172 | files one new pending record |
| Approvals.ApprovalService.DecideProposal | laurelin/core/db.py:3344-3402 | the update that only a pending row satisfies |
| Approvals.ApprovalService.Apply | laurelin/core/approvals.py:411-446 | the one dispatch from a change to its write |
| Approvals.ApprovalService.SubmitChange | laurelin/core/approvals.py:226-277 | the method computes the specified step, state and outcome |
| Approvals.ApprovalService.ApproveProposal | laurelin/core/approvals.py:279-338 | likewise |
| Approvals.ApprovalService.RejectProposal | laurelin/core/approvals.py:340-361 | likewise |
| Approvals.ApprovalService.WithdrawProposal | laurelin/core/approvals.py:363-384 | likewise |
| Approvals.ApprovalService.SetSecondApproverMode | laurelin/core/approvals.py:386-409 | likewise |
| PolicyDiff.EvalGrants | laurelin/core/policy_diff.py:72-96 | the fold over grants gives the access some matching grant gives |
| PolicyDiff.DiffDatasetGrants | laurelin/core/policy_diff.py:187-201 | loosening if and only if some user's effective access grows, markings and the admin bypass included |
| PolicyDiff.AccessExactly | laurelin/core/permissions.py:327-364 | what a user may do: an administrator everything; anyone else must hold every marking, and then views under an empty list, edits under one as an editor, and under any other list does what some grant that names them gives |
| PolicyDiff.RoleTighteningExact | laurelin/core/policy_diff.py:405-418 | "a role change called tightening widens nobody" holds of a grant list if and only if what it gives to viewers it also gives to everyone or to editors |
| PolicyDiff.StrangerCanExist | laurelin/core/auth.py:38-38 | the user on whom it fails has a name the system accepts, for any list of fewer than 10^31 grants |
| PolicySql.AssembledExactly | laurelin/core/dialects.py:348-370 | the nested statement under either name resolution, and the flat one under input columns, filter the raw rows, then mask, then limit |
| PolicySql.FlatAliasFirstExactly | laurelin/core/dialects.py:356-365 | the flat statement on an alias-first engine is right on every table if and only if masking never changes what the filter says of a row |
| PolicySql.FlatIsRightExactly | laurelin/core/dialects.py:348-370 | on the policy itself: right on every table if and only if it filters by no allowlist or leaves the row column unmasked, for a list that admits some value and holds no digest |
| PolicySql.FlatFailsOpen | laurelin/core/dialects.py:358-364 | a redacted row key: the flat alias-first statement returns a row that the policy hides |
| PolicySql.RenderedExactly | laurelin/core/permissions.py:214-311 | a rendered decision, assembled and evaluated, is the filter and the masks in policy order, cut at the limit |
| PolicySql.SameOnEveryEngine | laurelin/catalog/catalog.py:1155-1222 | on every engine, whatever a source scan returns is what the in-memory policy leaves, cut at the limit; the in-memory side refuses instead only where the user is denied every row |
| PolicySql.InMemoryRefusesExactly | laurelin/core/permissions.py:452-471 | the in-memory side refuses if and only if the user is a member and the policy names a mistyped column, or filters on a column without text and does not deny every row first |
| PolicySql.SidesDifferExactly | laurelin/core/permissions.py:452-471 | where the statement answers, the in-memory side refuses if and only if the member is denied every row and a mask names a mistyped column |
| PolicySql.DeniedReadDiffers | laurelin/core/permissions.py:214-311 | such a read: no rule admits the user and a mask says SSN for ssn; memory refuses it and every engine answers no rows |
| PolicySql.RenderRefusesExactly | laurelin/core/permissions.py:214-311 | a decision is refused if and only if a mask names a mistyped column, a hash meets a column type whose text is not portable before any other rewriting mask, or the row column is missing or not portable |
| PolicySql.DecideAppliesMasks | laurelin/core/permissions.py:452-471 | deciding first and masking after equals masking rule by rule, refusals included |
| PolicySql.PlanExactly | laurelin/core/permissions.py:591-641 | the pushed-down scan, one constant per masked column, returns what the masks one after another would |
| PolicyMeaning.AllowedExactly | laurelin/core/permissions.py:564-571 | the allowlist holds a text if and only if some rule for a subject the user matches lists it |
| PolicyMeaning.MemoryReadExactly | laurelin/core/permissions.py:452-471 | a read in memory returns the rows whose key text some matching rule gives, those and no others, in table order, each cell covered where a mask of its column exempts nobody the user matches and as it was everywhere else |
| PolicyMeaning.SourceReadExactly | laurelin/catalog/catalog.py:1155-1222 | the same of every engine's answer, cut at the limit, also where memory would have refused |
| PolicyMeaning.PlanReadExactly | laurelin/core/permissions.py:529-641 | the same of a planned scan, whatever plan is made: none, one that keeps nothing, one filter and projection, or masking the table that was read |
| PolicyMeaning.PlanRefusesExactly | laurelin/core/permissions.py:591-622 | a plan is refused if and only if rows could be shown to a member and the row column's type has no text |
| PolicyMeaning.SeenExactly | laurelin/core/permissions.py:710-745 | a cell no mask covers is as it was; one that some mask covers is null, stars or a digest |
| PolicyMeaning.MemoryRefusesExactly | laurelin/core/permissions.py:452-471 | a read in memory is refused if and only if the user is a member and a mask names a mistyped column, or rows could be shown and the row column's type has no text |
| PolicyMeaning.SourceRefusesExactly | laurelin/catalog/catalog.py:1155-1222 | an engine refuses if and only if the table has no columns, or rows could be shown to a member and a mask names a mistyped column, a hash comes first on text the engine spells differently, or the row column's text is not portable |
| PolicyMeaning.MemoryRefusalIsTrue | laurelin/core/permissions.py:676-720 | a refusal in memory names a column that some mask mistypes, or the row column, whose type has no text |
| PolicyMeaning.SourceRefusalIsTrue | laurelin/core/permissions.py:214-311 | an engine's refusal is of a table without columns, or for a member and names a column that some mask mistypes, or one whose text the engine spells differently where a hash comes first on it or it is the row column |
| Escaping.TwoPassesAreOne | laurelin/core/dialects.py:262-278 | replacing the backslash and then the quote escapes each character exactly once |
| Escaping.ClickHouseLiteralFaithful | laurelin/core/dialects.py:271-278 | the lexer reads a literal back as exactly the value and stops exactly at its end |
| Escaping.ClickHouseQuoteFaithful | laurelin/core/dialects.py:262-269 | the same for an identifier |
| Escaping.DuckDbQuoteFaithful | laurelin/core/dialects.py:157-158 | the same for DuckDB's doubled quotes |
| Escaping.StarRocksQuoteFaithful | laurelin/core/dialects.py:400-419 | refuses exactly the identifiers no quoted text can spell, and spells the others faithfully |
| Escaping.QuotersInjective | laurelin/core/dialects.py:157-419 | no two names share a spelling, on any engine |
| Escaping.DuckDbQuoteOnClickHouse | laurelin/core/dialects.py:157-158 | DuckDB's doubled quotes on ClickHouse name the intended column if and only if every backslash of the name stands where the engine keeps it; whatever the engine keeps apart from a backslash before a backslash or a quote |
| Escaping.QuotingNamesTheWrongColumn | laurelin/core/dialects.py:18-22 | the case the source names: so quoted, the column a\`b is read as the different column a`b |
| DecimalText.TextsAgreeExactly | laurelin/core/dialects.py:49-62 | for every coefficient and scale, the exact condition under which the scientific and the fixed-point text are the same |
| DecimalText.PortableExactly | laurelin/core/dialects.py:49-66 | a scale is declared portable if and only if the two texts agree for every coefficient of that scale |
| DecimalText.FixedSpells | laurelin/core/dialects.py:49-62 | the fixed text spells the number: its sign, digits whose value is the coefficient, and exactly as many behind the point as the scale, none if that is not above zero |
| DecimalText.ScientificSpells | laurelin/core/dialects.py:49-62 | the scientific text spells the same number, with an exponent exactly where it has not the scale's digits behind its point |
| DecimalText.ZeroAtScaleSeven | laurelin/core/dialects.py:49-56 | zero at scale 7 is `0E-7` one way and `0.0000000` the other |
| WorkspaceDag.CycleCheck.Visit | laurelin/api/routes.py:3841-3870 | the nested visitor with its shared set does what the specified search does |
| WorkspaceDag.RefusalExact | laurelin/api/routes.py:3824-3870 | the refusal comes if and only if the flow's output can reach itself through producers |
| WorkspaceDag.SaveKeepsDag | laurelin/api/routes.py:4026-4090 | a save past the name check keeps names and outputs unique and is accepted if and only if the workspace stays acyclic, replacing itself included |
| WorkspaceDag.SaveExactly | laurelin/api/routes.py:4026-4090 | a save is refused by name unless output and name are free or the flow's own, refused as a cycle exactly when the workspace with the flow in it would hold one, and otherwise the flow stands at its output and nothing else changed |
| WorkspaceDag.RunKeepsDag | laurelin/api/routes.py:4026-4110 | along any sequence of saves and deletes the workspace stays acyclic and collectable |
| WorkspaceDag.SharedNameHidesACycle | laurelin/api/routes.py:4048-4056 | without the name check, a transform that shares the flow's name hides a cycle from the walk |
| Lineage.GetLineage | laurelin/api/routes.py:2522-2585 | the route's dictionaries and loops compute the specified projection |
| Lineage.ProjectionExact | laurelin/api/routes.py:2522-2585 | a node is listed if and only if it is mentioned and seen, its flags say exactly whether a neighbour on that side was cut, and an edge is listed if and only if both its ends are seen |
| Lineage.DatasetExactly | laurelin/api/routes.py:2522-2585 | a dataset is listed if and only if some recorded edge names it and the reader may see it, and flagged on a side exactly when a transform on that side produces something the reader may not see |
| Lineage.TransformExactly | laurelin/api/routes.py:2522-2585 | a transform is listed if and only if the reader may see what it was last recorded as producing, and flagged on a side exactly when a dataset on that side may not be seen |
| Lineage.EdgesExactly | laurelin/api/routes.py:2572-2583 | a pair is listed if and only if it is one side of a recorded edge and the reader may see both its ends |
| Lineage.ShownEdgesExactly | laurelin/api/routes.py:2572-2583 | and each pair of names once |
| Lineage.NothingAdded | laurelin/api/routes.py:2537-2583 | with one output per transform, an edge that brings no seen node, no shown pair and no new flag leaves the whole response unchanged, wherever it is stored |
| Lineage.HiddenEdgeLeavesNoTrace | laurelin/api/routes.py:2560-2570 | an edge between two hidden datasets leaves no trace |
| Lineage.AnotherHiddenInputLeavesNoTrace | laurelin/api/routes.py:2560-2570 | nor does a further hidden input of a transform already flagged |
| Lineage.AnotherHiddenConsumerLeavesNoTrace | laurelin/api/routes.py:2560-2570 | nor a further hidden consumer of a dataset already flagged |
| Iceberg.DescendsFrom | laurelin/core/iceberg.py:376-385 | the walk up the parents ends and decides ancestry, when listed parents are older than children |
| Iceberg.ParentLoopNeverEnds | laurelin/core/iceberg.py:376-385 | two snapshots that name each other as parents are walked for ever |
| Iceberg.MainOnlyMovesForward | laurelin/core/iceberg.py:187-374 | over any run of writes, branch cuts, deletes and merges, main's earlier tip stays an ancestor of its current one and no snapshot or version row is lost |
| Iceberg.PinnedReadsForEver | laurelin/catalog/catalog.py:721-731 | a version that pins a snapshot reads the same rows for ever, as many as it recorded |
| Iceberg.HistoryIsKept | laurelin/core/iceberg.py:351-374 | whatever was in main's history stays in it |
| Iceberg.StaleBranchIsRefused | laurelin/core/iceberg.py:351-374 | once main has moved past a branch's tip, merging it is refused |
| Iceberg.WriteReadsBack | laurelin/catalog/catalog.py:636-677 | a recorded write reads back as the appended history or as the new rows alone |
| Iceberg.ReadExactly | laurelin/catalog/catalog.py:721-731 | a version that pins a snapshot reads that snapshot's rows, any other and none read main's, and a version never recorded is refused |
| Iceberg.MergeExactly | laurelin/core/iceberg.py:351-374 | a merge goes through if and only if both names exist and main's tip is on the branch's parent chain; then main and the version it records read what the branch read, main is where the branch is, and the branch and every other name stay |
| Iceberg.BranchExactly | laurelin/core/iceberg.py:313-336 | a branch is cut if and only if the version exists, the name is fit, free and not main's, and there is a snapshot to begin at; it reads what that version reads, and nothing else is touched |
| Iceberg.DeleteExactly | laurelin/core/iceberg.py:345-349 | any name but main's is gone after a delete, and nothing else is |
| Iceberg.FailuresAreTrue | laurelin/core/iceberg.py:313-374 | what cutting, deleting and merging answer when they refuse is so: no such version, main's name, an unfit name, a name taken, nothing to begin at or to merge, or histories that went apart |
| Iceberg.WriteExactly | laurelin/core/iceberg.py:187-210 | after a write the branch reads the old rows and then the new, or the new alone, at a snapshot whose history goes on from the old one; every other name stays, and a recorded write to main pins it |
| Iceberg.IcebergDataset.WriteMain | laurelin/catalog/catalog.py:636-677 | the method computes the specified step and only moves forward |
| Iceberg.IcebergDataset.CutBranch | laurelin/core/iceberg.py:313-336 | likewise, with its refusals |
| Iceberg.IcebergDataset.DropBranch | laurelin/core/iceberg.py:345-349 | likewise; main is never dropped |
| Iceberg.IcebergDataset.Merge | laurelin/catalog/catalog.py:750-775 | likewise; refused as diverged exactly when main is not an ancestor of the branch's tip |
| SourceSync.MarkIsMaxExactly | laurelin/connectors/connectors.py:576-588 | the mark is the text of the greatest value streamed if and only if no chunk's maximum sorts above it as text |
| SourceSync.MonotoneTextAgrees | laurelin/connectors/connectors.py:576-588 | text that sorts as the values do meets that condition |
| SourceSync.OneChunkAgrees | laurelin/connectors/connectors.py:576-588 | so does a stream that comes in one chunk |
| SourceSync.Source.SyncOnce | laurelin/connectors/connectors.py:559-628 | one sync, the mark tracked while chunks stream into one part, failing in the stream or dying before the mark is recorded, is the specified step |
| SourceSync.SyncExactly | laurelin/connectors/connectors.py:559-628 | a failure in the stream changes nothing; otherwise the rows streamed follow the old ones, chunk by chunk, there is a new version unless there is one already and nothing was streamed, and the mark moves only when it gets recorded and some row had a cursor, to the text of a chunk's greatest that no other sorts above |
| SourceSync.SyncCatchesUp | laurelin/connectors/connectors.py:541-628 | after a sync whose mark is right the dataset holds the upstream table row for row |
| SourceSync.InsertThenSync | laurelin/connectors/connectors.py:541-628 | rows that arrive are in the dataset after the next sync whose mark is right, row for row with all the others |
| SourceSync.SyncIsExactlyOnceExactly | laurelin/connectors/connectors.py:541-628 | from a dataset that holds each row up to the mark exactly once, one sync keeps that if and only if no chunk's maximum sorts above the greatest value's text |
| SourceSync.RunIsExactlyOnceExactly | laurelin/connectors/connectors.py:541-628 | over every run of inserts with greater cursors and of syncs that succeed, fail or die, the dataset holds each upstream row up to the mark exactly as often as it is upstream if and only if every sync of the run agreed with the text order or failed in its stream, and every crash after the commit had streamed nothing |
| SourceSync.EveryChunkingExactly | laurelin/connectors/connectors.py:541-588 | the next sync keeps rows exactly once however they are cut into chunks if and only if no row above the mark has text that sorts above the greatest cursor's |
| SourceSync.RunIsAtLeastOnce | laurelin/connectors/connectors.py:541-628 | over every run, crashes and lagging marks included, at least as often, and nothing that is not upstream |
| SourceSync.TextOrderRepeatsRows | laurelin/connectors/connectors.py:580-585 | integers 9 and 10 in two chunks: 10 is taken twice |
| SourceSync.CrashesRepeatRows | laurelin/connectors/connectors.py:590-628 | from any state, n crashes between the version and the mark and then a sync that succeeds add every row above the old mark n + 1 times |
| SourceSync.FirstMarkExactly | laurelin/connectors/connectors.py:532-588 | a first sync leaves no mark if and only if no upstream cursor has a value |
| SourceSync.NullCursorsRepeatRows | laurelin/connectors/connectors.py:532-538 | a table whose cursors are all null, of any size: n syncs add each of its rows n times, and there is still no mark |
| SourceSync.LateRowsAreNeverSynced | laurelin/connectors/connectors.py:541-588 | once there is a mark, a row with a null cursor or one not above the mark is never taken, over any run of any inserts and of syncs that succeed, fail or die |
| Throttle.AuthService.ThrottleState | laurelin/core/auth.py:256-260 | finds or makes the entry, pruning first when a new one meets a full table |
| Throttle.AuthService.Prune | laurelin/core/auth.py:262-271 | keeps exactly the entries whose lock still runs |
| Throttle.AuthService.IsThrottled | laurelin/core/auth.py:273-284 | answers whether the lock runs, clearing an expired one |
| Throttle.AuthService.RecordFailure | laurelin/core/auth.py:286-294 | counts, and arms the lock once at the threshold |
| Throttle.AuthService.Authenticate | laurelin/core/auth.py:302-325 | one attempt computes the specified answer and table |
| Throttle.AnswerExactly | laurelin/core/auth.py:302-325 | in if and only if the credentials are good and the password has at most 1024 characters; otherwise throttled if and only if a lock is there and not over, an over-long guess counting first |
| Throttle.EntryExactly | laurelin/core/auth.py:273-325 | a login takes the entry away; a guess counts one more, from nothing once the lock is over, and arms a lock of thirty seconds at the fifth if there is none |
| Throttle.RightPasswordSucceeds | laurelin/core/auth.py:302-325 | the right password of an enabled account succeeds whatever the table says, and clears the entry |
| Throttle.OthersLeaveItAlone | laurelin/core/auth.py:256-271 | another user's attempt makes no entry but its own and leaves the others as they are, or drops one exactly when a new name meets 8192 entries and that one's lock does not run |
| Throttle.LockRunsToItsEnd | laurelin/core/auth.py:273-294 | over any run before its end, an armed lock is neither moved nor dropped and every guess at its user is throttled |
| Throttle.RefusalsBounded | laurelin/core/auth.py:273-325 | over every run, in any thirty seconds a user's guesses are refused at most five times, plus five per login or eviction; six with over-long passwords |
| Throttle.PastTheCapAllAreLocked | laurelin/core/auth.py:256-271 | whenever an attempt takes the table past 8192 entries every other entry is under a lock that still runs |
| Throttle.OverlongGuessIsFree | laurelin/core/auth.py:311-314 | at any moment after any user's lock, a guess of any over-long length and five others are all six refused |
| Throttle.FivePerWindowExactly | laurelin/core/auth.py:273-325 | "at most five refusals in any thirty seconds, plus five per login or eviction" holds of every run whose guesses have at most so many characters if and only if that is no more than the password limit |
| Health.OverSchedules | laurelin/core/health.py:149-186 | the schedule loop: overdue and failed flags, overdue names in order, the latest run |
| Health.One | laurelin/core/health.py:105-256 | the derived status is the specified one, and a failure that is not the build task's own never carries a schedule's or source's name |
| Health.StatusExactly | laurelin/core/health.py:105-280 | failing if and only if the latest task or build, an error-level expectation, the source's sync or a scheduled build has failed; overdue if and only if not that and some schedule of the dataset is late; stale if and only if neither and the declared freshness is not kept; unknown if and only if there is nothing to go by |
| Health.OverdueNamesExactly | laurelin/core/health.py:149-186 | the overdue names reported are those of the schedules that are, each once and in order |
| Health.WhichFailure | laurelin/core/health.py:187-211 | which failure a report shows: the first that applies, by the source's own order |
| Health.SeverityNeverFalls | laurelin/core/health.py:211-235 | with records fixed, severity never falls as time passes or schedules are added |
| Health.OrderDoesNotMatter | laurelin/core/health.py:149-186 | the order of schedules does not matter to the status |
| Health.HealthyMeans | laurelin/core/health.py:211-235 | a healthy status rules out an overdue or failed schedule and a missed freshness promise |
| Health.Alerts.EvaluateAndAlert | laurelin/core/health.py:282-312 | the alert loop computes the specified pass |
| Health.PassExactly | laurelin/core/health.py:282-312 | for each dataset, a pass persists the derived status and fires the one event its change calls for, or none |
| Health.QuietPass | laurelin/core/health.py:293-298 | unchanged statuses change nothing and fire nothing |
| Health.RunKeepsInStep | laurelin/core/health.py:282-312 | over any run of passes every recovery comes straight after a red event of the same dataset |
| Health.HistoryIsItsOwn | laurelin/core/health.py:282-312 | a dataset's events over a run depend on its own statuses alone |
| Health.PersistedIsLast | laurelin/core/health.py:293-298 | the persisted status is the last one derived |
| Health.RecoveryExactly | laurelin/core/health.py:299-308 | over any run of passes in which a dataset persisted as red is red no more: one recovery is fired if the first status derived is healthy, and nothing otherwise |
| Splitter.SplitStatements | laurelin/core/backend.py:105-155 | the index loop, which skips escaped quotes in pairs, equals cutting character by character |
| Splitter.PiecesExactly | laurelin/core/backend.py:127-154 | the untrimmed pieces are the only way to write the script as pieces without a separator, all but the last ending in code, joined by semicolons |
| Splitter.ModesExactly | laurelin/core/backend.py:115-154 | where comments and literals are: two hyphens in code open a comment up to and with the next newline, a quote in code opens a literal up to and with the next quote, and after anything else it is still code |
| Splitter.KeptExactly | laurelin/core/backend.py:154-155 | of the pieces, those that are not blank are kept, without the spaces around them, in order, and nothing else |
| Splitter.RoundTripExactly | laurelin/core/backend.py:105-155 | trimmed statements joined by semicolons split back into themselves if and only if none holds a semicolon outside comments and literals and each but the last ends outside them |
| Splitter.OpenEndSwallows | laurelin/core/backend.py:127-154 | a statement that ends inside a comment or a literal swallows the semicolon and whatever of the next text stays inside it |
| Splitter.OpenCommentSwallows | laurelin/core/backend.py:132-136 | any statement that ends in a comment swallows the next one whole when that is on one line |
| Endpoint.UserinfoExactly | laurelin/core/failure.py:700-706 | userinfo with a `/`, `?` or `#` is refused, and any other leaves the answer as it is without userinfo |
| Endpoint.PrintThenParse | laurelin/core/failure.py:665-711 | scheme, userinfo, host, port and tail printed and parsed give the host and the port, or the scheme's default |
| Endpoint.AtInPathIsRefused | laurelin/core/failure.py:700-705 | an `@` behind a path, query or fragment is refused, a departure from section 3.2 of RFC 3986 |
| Endpoint.ParsesExactly | laurelin/core/failure.py:665-711 | a host and a port are answered if and only if the stripped text is scheme, optional userinfo, that host, optional digits, at most one newline and a tail, each of the characters the patterns name, and the port is the digits' value or the scheme's default |
| Endpoint.ServedExactly | laurelin/core/failure.py:660-663 | the default port of a scheme in any mixture of cases: nine names, and 0 for every other |
| Endpoint.NewlineAfterHostIsAccepted | laurelin/core/failure.py:657-657 | one newline between the authority and what follows is let through, whatever the parts |

## Left out

- Cells.AnalysisClosure: recursion limits of the interpreter, the wording of refusals and the rewriting of step ids
  into cell vocabulary (routes.py:1318-1401) are not modelled; refusals keep their kind and the names they mention.
- FlowIR.Validate: entries that are not objects, unhashable ids and the other fields of a flow (name, author,
  expectations) are outside the model; the compiler never emits them. Parameter validation is an abstract rule.
- Revalidation.CheckAnalysisCells: the view check on sources and Tier B compilation are one abstract function from a
  flow to its columns, fixed while revalidating, as schema and caller are fixed for one save.
- AnalysisStore.MergeCells: bodies of the wrong type, and the `chart`, `stacked` and `width` fields, which no check
  reads; `delete_analysis` forgets the record and its counter with it, so ids are new within one analysis's life only.
- VersionLog.NextKeeps: values within a part are abstract rows; schema casting is a chunk that can fail. An insert that
  raises is the step `InsertFails` and is taken not to have committed: a database that commits the row and then fails
  to say so makes the clean-up delete a published part, and that case is not in the model. Nor is a raise after a
  nested compaction has committed, from the audit record it then writes, which also deletes the append's published
  part; and a nested compaction whose base cannot be read, which would raise, takes no step here.
- Catalog.DatasetCatalog.Read: versions from before manifests (a bare directory of parts) and datasets that are scanned
  where they lie are left out.
- Catalog.DatasetCatalog.Append: the class runs with auto-compaction off, which is the default; compaction inside
  `append` is in the state machine.
- Approvals.FourEyes: each service method is one atomic step. In finer grain `approve` applies before it decides, so a
  reject in between can win the record of a change that was applied. The comparator is a parameter here, under the
  one hypothesis that `FourEyesExactly` shows to be needed. Direct records of provisioning and import, and audit
  rows, are left out.
- RoleApprovals.FourEyesOverRolesExactly: one dataset's grants, no markings; only role changes are edits.
- PolicyDiff.DiffDatasetGrants: the other change kinds of the comparator are not modelled.
- PolicySql.SameOnEveryEngine: the statement is a tree, not text; that a portability table tells the truth about an
  engine is a hypothesis (`Honest`). Columns are assumed distinct, negative limits are not considered, SETTINGS and
  hints are left out.
- Escaping.ClickHouseLiteralFaithful: the lexers are models of the engines; hexadecimal, Unicode and `\N` escapes, which
  the escapers never write, are not in them, and which other backslashes an engine keeps is a parameter. Text is a
  sequence of characters rather than bytes.
- WorkspaceDag.RunKeepsDag: writes of code transforms, which the walk does not guard, are not part of a run.
- Iceberg.IcebergDataset.WriteMain: schema evolution and snapshot expiry (which the product does not offer) are left
  out; new snapshot ids are assumed unused, as the library draws them. Compaction of an Iceberg table is left out.
- SourceSync.RunIsExactlyOnceExactly: the object-store cursor, queries written by hand and schema conflicts are left
  out; a value is its rank in the column's order, and the server reads back the text Python writes.
- Throttle.RefusalsBounded: calls are sequential, with one clock reading per entry into the table; hashing is one
  boolean of the attempt, and user names are already lower-cased.
- Health.One: parsing of timestamps is done before the model; ignored fields are only copied by the source. Delivery
  of webhooks and the reaping of dead builds are left out.
- Endpoint.PrintThenParse: a port of more than 4300 digits, which the interpreter refuses to convert, is converted here.
- HTTP routing, status codes, sign-on, provisioning, export and import, the command line and the benchmarks.
- The engines themselves, Arrow type inference, storage backends and file modes.
- Password hashing, tokens, sessions, network probes.

# Hyqs: a verified model of the deterministic control plane

Hyqs is an autonomous build pipeline. Its agents are AI, its control plane is not: scheduling,
retry budgets, scope policy, parsing of agent output, conflict resolution and audit policy are
small deterministic algorithms with strong stated guarantees. This project models those
algorithms in Dafny, branch by branch, and proves what they promise.

- `DependencyMinimizer`, `DependencyTheorems`: merging generated and declared job dependencies,
  rejecting cycles and dropping redundant generated edges, over `Graphs` and `Bits`.
- `ChainScheduling`, `ChainFiles`: the edges of fix-job chains and of batches, and why unordered
  jobs of a batch are safe side by side.
- `JobDependencies`: the dependency table, its upsert, and what pruning a project's rows keeps.
- `SplitRepointing`: moving the dependents of a split job onto its children.
- `RemediationFiling`: filing a fix chain for a failed job, and when that is refused.
- `DependencyRows`: the table after pruning, a split and a filing, row by row.
- `JobMachine`, `RunnerTheorems`, `OscillationTheorems`, `FailureRecords`: the runner's retry,
  rebase and timeout budgets, the gates before a merge, the gate-oscillation detector, over whole
  runs, and what is recorded of a failure.
- `ScopeAmendment`, `ScopeLimits`, `ScopeCycles`, `AmendmentGrounds`: widening a job's file
  manifest, the limits on that, any sequence of cycles, and why a path is let in or kept out.
- `BraceScanner`, `BraceBlocks`, `PlanContract`, `PlanPaths`, `RecordFraming`, `ConflictMarkers`,
  `ConflictText`, `GeneratedBlock`: parsers and rewriters.
- `AuditRatchet`, `AuditEvidence`, `AuditVerdicts`, `ProbeLimiter`, `AlembicHeads`: the npm audit
  policy, the probe rate limiter and migration heads.
- `PyValues`, `Sorting`: the Python values and orders the source relies on.

Code that updates objects or runs loops is written as classes and methods with loops, each proved
against a specification function or predicate; the promises are lemmas about those. Where such a
definition carries a result, another lemma says what it comes to on the values, texts and rows
themselves, in words of its own: these are collected in `ChainFiles`, `DependencyRows`,
`FailureRecords`, `AmendmentGrounds`, `BraceBlocks`, `PlanPaths`, `ConflictText`, `AuditEvidence`
and `AuditVerdicts`, and at the end of the other modules. `fnmatch`,
path normalisation, path extraction from prose and SHA-1 are function parameters, so every
statement holds for any of them.

## Where the code and its description part

- A job reaches MERGE only by clearing every gate, says the repository's README.md:59-61. After
  the resolution of a merge conflict the FIX step restarts at MERGE_VERIFY: the merge delta is
  verified and the design reviewed again, but the lint, test, review and security steps do not
  run again. `MergeGate` gives the exact condition, `ResolutionSkipsLint` a run. FIX tells a
  resolution by the mark in front of the failure text, and of the texts the gates report only that
  of an invariant check named like the mark carries it (`MarkedFailureIsACheck`,
  `MarkedCheckSkipsReview`, `MergeGateWithPlainNames`). The theorems count from the last BUILD or
  FIX; the commits of LINT's own fixes, merges of the base and automatic conflict resolutions
  inside MERGE also change the tree and are not counted.
- The budgets bound every failure, but not a base branch that keeps moving: going back to
  MERGE_VERIFY for it spends nothing (`MovingBaseNeverEnds`). `RunsAreBounded` bounds all the rest.
- A provider pause overwrites the failure record, and with it the history of the oscillation
  detector; so does any failure of another gate. The wait for a security remediation loses it too,
  because a claim has cleared the stored record and that exit does not save the job
  (`WaitHidesAWindow`, `WaitHidesAWindowOfARun`). The detector theorems are stated over the stretch since.
- After a split every dependent is to wait for the terminal children, and through them for all.
  That holds for rows entered by the user or by meaning. A generated row onto a terminal child with
  a disjoint manifest is deleted in the same transaction, and the dependent may share a file with a
  child behind that one (`WaitsAfterSplit`, `SplitReleasesOverlap`).
- An incident is said to be requeued when its fix chain has landed
  (hyqs/pipeline/supervisor.py:2036-2040). It waits for the last entry and what that leads to, not
  for entries beside it
  (`IncidentWaitsFor`, `IncidentSkipsTheOthers`). The chain itself is refused when a queued job it
  is made to wait for waits for the incident (`RefusedIffQueueWaits`).
- A scope decision reports at most 50 rejections, and the runner looks for a limit among the
  reported ones only. No gate can ask for enough to hide one: it names at most 32 paths and no
  further evidence, and the runner then grants all that is eligible or nothing (`GateGrantIsAllOrNothing`,
  `AmendmentsOfGatesAreWhole`). `evaluate_scope_amendment` called directly with 59 candidates would
  (`TheBoundIsTight`).
- `evaluate_scope_amendment` says it uses deterministic gate evidence only. A path that a model and
  some vague evidence name together passes its tests on the evidence, although neither does alone
  (`EligibleIff`, `TwoWeakKindsSuffice`).
- `_apply_authorized_scope_amendment` has no caller in hyqs any more: the file-scope gate that used
  it was removed, and the tests that call it are skipped for that reason
  (tests/test_pipeline_loop_fixes.py:829-1132). `ScopeCycles` describes what it does when it is
  called, not what each FIX runs.
- The audit ratchet exists only under policies that block indeterminate comparisons
  (`RatchetHoldsIffIndeterminateBlocks`).
- The "last bare object" is searched from the last opening brace, so an object that contains
  another brace is missed (`LastObjectIsFound`, `NestedObjectIsMissed`).
- `replace_generated_block` calls itself idempotent; `ReplaceIsIdempotent` gives the exact
  condition.
- `resolve_pure_append_conflicts` also refuses hunks whose sides have equally many lines, and lets
  closing markers through inside the first block; the grammar in `ConflictMarkers` follows the
  code.

## Model

| member | source | states |
|---|---|---|
| DependencyMinimizer.MinimizeAutoDependencies | hyqs/pipeline/collision.py:1019-1100 | the whole algorithm: the output is, in order, exactly the strongest edge of every pair that is not generated-and-disjoint, less the generated edges another path implies; or the cycle or unknown-provenance error of the least bad edge |
| DependencyMinimizer.MergeByRank | hyqs/pipeline/collision.py:1030-1040 | merging by rank keeps the strongest provenance of each pair, or reports the first defective edge in sorted order |
| DependencyMinimizer.KahnOrder | hyqs/pipeline/collision.py:1047-1063 | the heap-driven loop places every node, dependencies first, exactly when the graph is acyclic, self-loops included |
| DependencyMinimizer.ReachMasks | hyqs/pipeline/collision.py:1080-1086 | bit i of a node's mask is set exactly when node i lies on a path from it |
| DependencyMinimizer.DropDisjoint | hyqs/pipeline/collision.py:1065-1075 | only generated edges between manifests known to be disjoint go |
| DependencyMinimizer.HasAlternate | hyqs/pipeline/collision.py:1088-1096 | the mask test answers whether another path implies the edge |
| DependencyMinimizer.DropRedundant | hyqs/pipeline/collision.py:1088-1098 | what is left is every edge that is protected or has no alternative |
| DependencyMinimizer.ClassifyManifest | hyqs/pipeline/collision.py:1001-1016 | a list of paths read back as a scope is known exactly when it is not empty, with the same paths, each once |
| DependencyTheorems.CycleVerdict | hyqs/pipeline/collision.py:1037-1063 | for valid provenances "dependency cycle" is raised exactly when the full input has a cycle; an unknown provenance never passes |
| DependencyTheorems.ReachabilityPreserved | hyqs/pipeline/collision.py:1065-1100 | removing all redundant edges at once against masks computed beforehand loses no ordering: reachability is that of the graph after only the disjoint generated edges are dropped |
| DependencyTheorems.OrderingsKept | hyqs/pipeline/collision.py:1065-1100 | every protected edge survives with at least its provenance, every non-disjoint generated edge keeps its endpoints ordered, and no edge is invented |
| DependencyTheorems.OutputIsMinimal | hyqs/pipeline/collision.py:1088-1098 | no generated edge of the output is implied by another path of the output |
| DependencyTheorems.OutputIsLeast | hyqs/pipeline/collision.py:1088-1100 | every smaller graph that keeps the orderings and the protected edges contains the output |
| DependencyTheorems.MinimizingIsIdempotent | hyqs/pipeline/collision.py:1019-1100 | minimising the output again returns it unchanged |
| DependencyTheorems.ResultIsDetermined | hyqs/pipeline/collision.py:1030-1040 | order and duplicates of the input edges do not matter |
| DependencyTheorems.FirstBadExists | hyqs/pipeline/collision.py:1030-1040 | of defective edges one is the least, so the reported error is determined |
| DependencyTheorems.OrderFollowsTheManifests | hyqs/pipeline/collision.py:1065-1075 | told from the manifests: an edge whose job or dependency names no path, or whose manifests meet, stays ordered; a pair with generated edges only, whose manifests name paths that do not meet, is gone |
| DependencyTheorems.UnscopedStaysDisjointGoes | tests/test_collision.py:54-72 | one generated edge: it stays when one job has no scope and goes when both have disjoint ones |
| DependencyRows.SurvivorsAre | hyqs/pipeline/collision.py:1019-1100 | edge by edge: returned exactly if given, the strongest of its pair and, when generated, neither between manifests apart nor implied by a longer way of edges that count |
| DependencyRows.OrderAndErrors | hyqs/pipeline/collision.py:1030-1040 | what is returned stands by job, dependency and provenance; the first defective edge in that order decides the error |
| DependencyRows.PrunedRowsAre | hyqs/pipeline/store.py:4295-4342 | row by row: pruning deletes exactly the generated rows inside the project between manifests apart or implied by a longer way, and alters none |
| DependencyRows.MovedRowsAre | hyqs/pipeline/store.py:5780-5820 | row by row after a split: nobody waits for the parent, its dependents wait for every child no other child waits for, and of two provenances the stronger stays |
| DependencyRows.FiledEdgesAre | hyqs/pipeline/store.py:4895-4903 | the proposed edges by index: forward and negative ones, queued jobs, and the incident on the last entry |
| ChainScheduling.ComputeChainDependencies | hyqs/pipeline/remediation.py:174-195 | each entry waits for exactly what it declares and every earlier entry that shares a file, sorted and without duplicates |
| ChainScheduling.DepsOfEntry | hyqs/pipeline/remediation.py:186-194 | the inner loop over the earlier entries |
| ChainScheduling.BatchDependencies | hyqs/pipeline/store.py:1583-1635 | filing a batch: out-of-range indices are refused, otherwise the declared and derived edges, minimised |
| ChainScheduling.EntryEdges | hyqs/pipeline/store.py:1600-1625 | the edges of one batch entry: declared ones as the user's, overlaps with earlier entries as generated |
| ChainScheduling.BatchIsParallelSafe | hyqs/pipeline/store.py:1591-1635 | in a filed batch overlapping jobs and declared dependencies are ordered, so jobs left unordered never overlap |
| ChainScheduling.ChainPointsBackwards | hyqs/pipeline/remediation.py:180-183 | accepted chains only ever get backward edges |
| ChainScheduling.ChainIsAccepted | hyqs/pipeline/store.py:1633-1635 | backward edges are never refused as cyclic |
| ChainFiles.ChainIsValidIff | hyqs/pipeline/incident_analyst.py:141-160 | the chains the analyst may propose, as values: one to four dicts with an idea of 40 characters between its blanks, earlier indices only and story names |
| ChainFiles.OverlapIff | hyqs/pipeline/store.py:1591-1615 | two jobs of a batch overlap exactly when the paths of their scopes meet, the target files standing in for a scope that names none |
| ChainFiles.BatchSharesNoFile | hyqs/pipeline/store.py:1583-1635 | in a filed batch the later of two jobs with meeting paths waits for the earlier, and every job for what it declares |
| ChainFiles.FiledIdeasAreOrdered | hyqs/pipeline/supervisor.py:1860-1979 | once an accepted chain is filed and minimised, an entry waits for what its dict declares and for every earlier entry whose idea names a meeting file |
| JobDependencies.DependencyTable.AddDependency | hyqs/pipeline/store.py:1415-1434 | one upsert: a new row, or the stronger of the two provenances |
| JobDependencies.UpsertsAt | hyqs/pipeline/store.py:1415-1434 | after any number of upserts a row that was given one provenance carries the stronger of it and the old one, a row given none is as it was |
| JobDependencies.StrongestEverGiven | hyqs/pipeline/store.py:1415-1434 | after any upserts a row is the user's if the user ever gave it, else semantic if it ever was, else generated |
| JobDependencies.DependencyTable.Reconcile | hyqs/pipeline/store.py:4295-4342 | minimising a project's rows: exactly the rows the minimiser does not return are deleted |
| JobDependencies.PruningKeepsStandingOrder | hyqs/pipeline/store.py:4295-4342 | pruning a project inside the whole table deletes generated rows only, and afterwards jobs are ordered exactly as by the rows other than those between scopes of the project known to be disjoint |
| SplitRepointing.RepointDependencyProvenance | hyqs/pipeline/collision.py:1103-1124 | the fan-out of dependents onto children: every pair once, provenance kept, sorted |
| SplitRepointing.RepointSplitDependents | hyqs/pipeline/store.py:5741-5838 | the transaction: refused and without effect exactly when the moved graph is cyclic, otherwise the moved rows, minimised |
| SplitRepointing.RefusedIffChildWaits | hyqs/pipeline/store.py:5790-5812 | the move closes a cycle exactly when one is there anyway or a terminal child is, or waits for, a dependent of the parent |
| SplitRepointing.OrderAfterRepointing | hyqs/pipeline/store.py:5780-5820 | after the move two jobs are ordered exactly when they were without the parent, or across one new edge |
| SplitRepointing.FreshSplitIsAccepted | hyqs/pipeline/store.py:5790-5812 | a split into freshly created children is never refused |
| SplitRepointing.EveryChildIsReached | hyqs/pipeline/store.py:5780-5792 | waiting for the terminal children means waiting for every child, in every graph that keeps the dependent's rows onto children and the rows among these |
| SplitRepointing.WaitsAfterSplit | hyqs/pipeline/store.py:5741-5838 | through the move and the minimisation after it, a job waits for a child exactly when it comes, without the parent, to a dependent whose new row onto some terminal child is protected or not known disjoint, and that terminal child is the child or waits for it |
| SplitRepointing.SplitSkipsNoChild | hyqs/pipeline/store.py:5741-5838 | a dependent whose row was the user's or semantic still waits for every child, any dependent for every terminal child not known disjoint from it, and nothing waits for the parent |
| SplitRepointing.SplitReleasesOverlap | hyqs/pipeline/store.py:5741-5838 | a generated dependent that shares a file with a child behind a disjoint terminal child ends up unordered with both |
| RemediationFiling.ProposedEdges | hyqs/pipeline/store.py:4895-4903 | the edges of a fix chain: semantic between its entries, generated to queued jobs, semantic from the incident to the last entry; an index out of range is refused |
| RemediationFiling.CreateSupervisorRemediation | hyqs/pipeline/store.py:4805-4922 | the transaction: without effect unless filed, and filed exactly when the table with the proposed edges is acyclic |
| RemediationFiling.RefusedIffQueueWaits | hyqs/pipeline/store.py:4903-4912 | filing is refused exactly when a cycle is there anyway, or a queued job that an entry the last one comes to waits for leads back to the incident |
| RemediationFiling.QueuedDependentBlocksTheFix | hyqs/pipeline/store.py:4911-4912 | the shortest such refusal: the queue survey makes the fix wait for a job that waits for the incident |
| RemediationFiling.IncidentWaitsFor | hyqs/pipeline/store.py:4903-4912 | an incident waits for exactly the last entry and those it leads to |
| RemediationFiling.FiledChainStays | hyqs/pipeline/store.py:4903-4922 | through the minimisation after it: every edge between entries and the incident's own stay, an entry keeps waiting for a queued job unless known disjoint from it, and the incident waits for exactly the same entries |
| RemediationFiling.IncidentSkipsTheOthers | hyqs/pipeline/store.py:4903-4922 | when the last entry depends on no other, the incident waits for none of the others |
| RemediationFiling.AnalystChainFits | hyqs/pipeline/incident_analyst.py:141-160 | a chain the validator accepts is never empty and its derived indices never out of range |
| RemediationFiling.FiledEntriesAreOrdered | hyqs/pipeline/supervisor.py:1860-1979 | once an accepted chain is filed and minimised, every declared dependency is a row and of two entries that share a file the later waits for the earlier |
| JobMachine.PipelineRunner.Fail | hyqs/pipeline/runner.py:1013-1085 | the job fails with its classification, an unclassified deploy failure by the signals in its message, budgets untouched |
| JobMachine.PipelineRunner.RetryOrFail | hyqs/pipeline/runner.py:1087-1188 | a gate failure: missing worktree, gate conflict, spent budget or FIX, in that order |
| JobMachine.PipelineRunner.SpendAttempt | hyqs/pipeline/runner.py:1142-1188 | one fix credit is spent, or the job gives up when none is left |
| JobMachine.PipelineRunner.RebaseConflict | hyqs/pipeline/runner.py:1415-1447 | a merge conflict spends one rebase credit and goes to FIX, or gives up |
| JobMachine.PipelineRunner.TimeOut | hyqs/pipeline/runner.py:734-785 | a timeout spends one timeout credit and stays at its stage, or fails at the limit |
| JobMachine.PipelineRunner.Pause | hyqs/pipeline/runner.py:678-732 | a provider pause spends nothing and overwrites the failure record |
| JobMachine.PipelineRunner.RetryNotMergeable | hyqs/pipeline/stages/merge.py:660-683 | a refused merge spends a rebase credit and goes back to SECURITY, or fails at the limit |
| JobMachine.PipelineRunner.Succeed | hyqs/pipeline/stages/fix.py:155-170 | a step that succeeds moves on: FIX to LINT, or to MERGE_VERIFY after a conflict resolution |
| JobMachine.PipelineRunner.RunStage | hyqs/pipeline/runner.py:1550-1585 | one handler outcome takes the job to the state the transition function gives |
| FailureRecords.RejectionIsRecorded | hyqs/pipeline/runner.py:1087-1188 | stage by stage what a failing gate leaves: a missing worktree to be run again, a contradiction for a human, otherwise FIX with the step, code, origin and attempt, or the same given up at the cap |
| FailureRecords.FatalIsRecorded | hyqs/pipeline/runner.py:1013-1046 | a failure is recorded as given; an unclassified deploy failure is the code's when its message holds one of seven texts in any case, else the environment's |
| FailureRecords.TimeoutIsRecorded | hyqs/pipeline/runner.py:734-785 | the record of a timeout, below and at the limit |
| FailureRecords.PauseIsRecorded | hyqs/pipeline/runner.py:678-732 | the record of a provider pause, with nothing spent |
| FailureRecords.ConflictIsSentToFix | hyqs/pipeline/runner.py:1415-1447 | the record of a merge conflict, with and without a rebase left |
| FailureRecords.SuccessIsRecorded | hyqs/pipeline/stages/fix.py:155-170 | where a successful step of each stage leads, and what it leaves alone |
| FailureRecords.OtherExitsAre | hyqs/pipeline/stages/merge.py:234-350 | base moves, waits, cancelling, handing over and finding the request satisfied spend nothing |
| FailureRecords.RefusedMergeIsRecorded | hyqs/pipeline/stages/merge.py:660-683 | a refused merge costs a rebase and goes back to the design review, or fails unclassified |
| FailureRecords.ExitsAre | hyqs/pipeline/stages/merge.py:234-683 | which exits a step of each stage has |
| FailureRecords.ExecutedStepIsBlamed | hyqs/pipeline/runner.py:1023-1023 | a failure blames the executing step, or the step of the stage when none is executing |
| FailureRecords.ReportingStages | hyqs/pipeline/runner.py:1094-1113 | no gate but the test run words a failure like a missing worktree |
| FailureRecords.WordingIs | hyqs/pipeline/stages/test.py:50-178 | the exact texts the gate of each stage can report |
| RunnerTheorems.StepEffect | hyqs/pipeline/runner.py:1087-1188 | what each outcome does to stage, status and budgets |
| RunnerTheorems.RunStaysWithinCaps | hyqs/pipeline/models.py:265-278 | in every run no budget is overdrawn |
| RunnerTheorems.SurvivedIsSpent | hyqs/pipeline/runner.py:1087-1188 | the failures a live job survived are exactly the credits it spent |
| RunnerTheorems.SurvivedFailuresAreBounded | hyqs/pipeline/runner.py:734-785 | over any interleaving at most fix cap + rebase cap + timeout cap - 1 failures are survived |
| RunnerTheorems.RunsAreBounded | hyqs/pipeline/runner.py:1550-1585 | a run is at most 9 + 7 x budget steps long, not counting pauses, waits and base moves, and a live job is never stuck |
| RunnerTheorems.MovingBaseNeverEnds | hyqs/pipeline/stages/merge.py:234-350 | no such bound holds with base moves: for every n a run visits MERGE_VERIFY n times with all budgets unspent |
| RunnerTheorems.MergeGate | hyqs/pipeline/runner.py:1569-1581 | whenever MERGE runs, all five gates have passed since the last BUILD or FIX if and only if that was not a conflict resolution |
| RunnerTheorems.ResolutionSkipsLint | hyqs/pipeline/stages/fix.py:155-170 | for every conflict text, a run that reaches MERGE after its resolution with the lint step not passed since |
| RunnerTheorems.MergeGateSinceOrdinaryEdit | hyqs/pipeline/runner.py:1569-1581 | when no gate failure carries the conflict mark, all five gates have passed since the last BUILD or FIX other than a conflict resolution |
| RunnerTheorems.MarkedFailureIsACheck | hyqs/pipeline/stages/test.py:50-178 | of the texts the gates can report, the mark stands in front of exactly those of an invariant check whose file name begins like it |
| RunnerTheorems.MergeGateWithPlainNames | hyqs/pipeline/invariants.py:78-140 | where no invariant check is so named, all five gates have passed since the last BUILD or FIX other than a conflict resolution, in every run |
| RunnerTheorems.MarkedCheckSkipsReview | hyqs/pipeline/stages/fix.py:155-170 | with any check so named, its violation leads to a run that reaches MERGE without the review step ever having passed |
| OscillationTheorems.ConflictVerdict | hyqs/pipeline/runner.py:1120-1140 | a review or security failure is ruled a gate conflict exactly when it completes A, B, A, B; then no credit is spent and a human decides; otherwise it goes to FIX or, without a credit, fails |
| OscillationTheorems.FingerprintsAgree | hyqs/pipeline/models.py:1023-1035 | two verdicts have one fingerprint exactly when their summaries agree, a missing or falsy one counting as empty, and so do severity and note of their dict findings in order |
| OscillationTheorems.ConflictIffAlternating | hyqs/pipeline/runner.py:1116-1141 | on a run: the fourth of four rejections is ruled a gate conflict exactly when gates 1 and 2 differ and 1 and 3, and 2 and 4, have the same gate, summary and pairs |
| OscillationTheorems.HistoryStep | hyqs/pipeline/runner.py:1116-1141 | one step appends to the stored history, clears it or leaves it |
| OscillationTheorems.HistoryIsRecord | hyqs/pipeline/runner.py:1116-1188 | in every reachable live job the stored history is the record of the failures since it was last overwritten, without any A, B, A, B window |
| OscillationTheorems.OscillationCaughtAtFirstWindow | hyqs/pipeline/models.py:1038-1052 | within a stretch of review and security failures, not broken by a pause or a security wait, the job fails at the first window and never before |
| OscillationTheorems.WaitHidesAWindow | hyqs/pipeline/stages/security.py:329-339 | the wait for a security remediation hides a window: the verdict that would have been ruled a conflict goes to FIX after it |
| OscillationTheorems.WaitHidesAWindowOfARun | hyqs/pipeline/stages/security.py:329-339 | two runs of a fresh job, review a, security b, review a, security b, the second with the wait before the last: a gate conflict without it, FIX with it |
| ScopeAmendment.EvaluateScopeAmendment | hyqs/pipeline/collision.py:1245-1424 | one cycle decides exactly as the specification, for every order in which sets are iterated |
| ScopeAmendment.JudgeAll | hyqs/pipeline/collision.py:1310-1390 | every candidate is judged once, eligible and refused ones in order |
| ScopeAmendment.DecisionIsBoundedAndJustified | hyqs/pipeline/collision.py:1266-1424 | a decision respects both limits, is sorted, and each accepted path is tracked, new, not sensitive unless planned or operator-authorised, rooted and free of conflicts; an unauthorised event accepts nothing |
| ScopeAmendment.EligibleIsGrantedOrLimited | hyqs/pipeline/collision.py:1391-1424 | an eligible path is accepted unless a limit cuts it off, and the accepted ones are the first in path order |
| ScopeAmendment.EligibleIsJustified | hyqs/pipeline/collision.py:1330-1385 | an eligible path is failing itself or a stated companion of a failing, planned or frozen path |
| AmendmentGrounds.EligibleIff | hyqs/pipeline/collision.py:1333-1385 | a candidate is eligible exactly when it meets every demand, each told from the request: who names it, what it is filed under, the listings, the manifests and the relations |
| AmendmentGrounds.GrantedIff | hyqs/pipeline/collision.py:1333-1424 | only a path that meets every demand is granted, and while the limits have room every one that does |
| AmendmentGrounds.GrantTells | hyqs/pipeline/collision.py:1346-1389 | a granted path is reported with all its grounds and no other: the failure, each kind of evidence, the diff, each relation to a root |
| AmendmentGrounds.RejectionsAre | hyqs/pipeline/collision.py:1340-1424 | every reported rejection carries the first demand its candidate fails, or the code of the limit that cut it off |
| AmendmentGrounds.TwoWeakKindsSuffice | hyqs/pipeline/collision.py:1346-1358 | the word of a model is refused, a speculation is refused, both together are granted |
| AmendmentGrounds.RunnerTells | hyqs/pipeline/runner.py:1366-1375 | a cycle whose report shows a limit grants nothing and reports each path it would have granted; any other stands as decided |
| AmendmentGrounds.LetInIff | hyqs/pipeline/runner.py:1190-1413 | a cycle with room lets a new path in exactly when the persisted failure is in order, its event is new and the path meets every demand |
| ScopeLimits.LimitIsNoticed | hyqs/pipeline/runner.py:1366-1375 | of any evaluated request: a limit that cut paths off is missed among the 50 reported rejections exactly when at least 50 refused candidates sort before the first path cut off |
| ScopeLimits.GrantIsAllOrNothing | hyqs/pipeline/runner.py:1355-1375 | with at most 50 candidates beyond the limit, the runner grants every eligible path, in path order, or, when a limit would cut one off, none |
| ScopeLimits.EvidenceIsBounded | hyqs/pipeline/stages/__init__.py:79-127 | a gate authorises exactly when it names something, all of it canonical paths and at most 32 of them, and then persists exactly these |
| ScopeLimits.GateGrantIsAllOrNothing | hyqs/pipeline/runner.py:1266-1375 | so whatever a gate can ask for is granted whole or not at all: no limit is ever missed |
| ScopeLimits.TheBoundIsTight | hyqs/pipeline/collision.py:1391-1424 | called directly with 59 candidates, more than a gate can name, under every policy that takes paths such as src/aaa.py as they stand, the evaluation loses the limit from its report; with 58 of that kind it does not |
| ScopeCycles.ScopeRecord.Append | hyqs/pipeline/store.py:1821-1951 | the transaction: repeated events and stale or over-limit decisions change nothing, otherwise only new paths are appended and one complete ledger entry recorded |
| ScopeCycles.ApplyAuthorizedScopeAmendment | hyqs/pipeline/runner.py:1190-1413 | one cycle of the runner with all its exits: the new record, and whether the job goes on; whenever the manifest grew it does |
| ScopeCycles.CycleIsBounded | hyqs/pipeline/runner.py:1355-1400 | one cycle keeps the ledger consistent and adds at most the per-cycle number of distinct, new, justified paths |
| ScopeCycles.AppendIsBounded | hyqs/pipeline/store.py:1870-1951 | appending keeps paths distinct and within the limit |
| ScopeCycles.LedgersStayConsistent | hyqs/pipeline/store.py:1821-1951 | over any sequence of cycles the manifest is the original plus the amendments |
| ScopeCycles.AmendmentsAreBounded | hyqs/pipeline/runner.py:1190-1413 | over any sequence of cycles, stale workers included: limits hold, at most 24 cycles widen anything, and every added path was justified by the cycle that added it |
| ScopeCycles.GateCycleIsAllOrNothing | hyqs/pipeline/runner.py:1355-1413 | a cycle a gate asks for that widens the manifest had nothing cut off by a limit, lets in every eligible path and adds only paths the gate named |
| ScopeCycles.AmendmentsOfGatesAreWhole | hyqs/pipeline/runner.py:1190-1413 | the same for every such cycle of any history, judged on the row it changes |
| ScopeCycles.EventsWidenOnce | hyqs/pipeline/store.py:1865-1877 | over any sequence of cycles no gate failure event widens the manifest twice, so widening cycles are at most as many as events |
| BraceScanner.ExtractFrom | hyqs/pipeline/contracts.py:39-62 | the loop returns exactly the object the scan delimits, and always ends |
| BraceScanner.BraceExtract | hyqs/pipeline/contracts.py:65-70 | extraction from the last opening brace |
| BraceScanner.ScanIgnoresTheRest | hyqs/pipeline/contracts.py:39-62 | text after the object does not matter |
| BraceScanner.JsonPasses | hyqs/pipeline/contracts.py:39-62 | any printed JSON value leaves the scanner at the depth it found it |
| BraceScanner.ObjectIsExtracted | hyqs/pipeline/contracts.py:39-62 | started at the first character of any JSON object printed by sections 4 and 7 of RFC 8259, whatever follows, the scanner returns that object |
| BraceScanner.LastObjectIsFound | hyqs/pipeline/contracts.py:65-70 | the last bare object is found exactly when it holds no second opening brace |
| BraceScanner.NestedObjectIsMissed | hyqs/pipeline/contracts.py:73-105 | a nested object is returned instead of the outer one |
| BraceBlocks.ExtractedIff | hyqs/pipeline/contracts.py:39-62 | for every text from an opening brace on: what is returned is the balanced block it begins with, by a grammar of characters, strings and blocks, and nothing when there is none |
| BraceBlocks.BraceExtractedIff | hyqs/pipeline/contracts.py:65-70 | for every text: the balanced block at its last opening brace, or nothing |
| RecordFraming.SegmentsJoin | hyqs/pipeline/codex.py:263-268 | cutting at newlines loses nothing: the segments join back to the stream |
| RecordFraming.Drain | hyqs/pipeline/codex.py:263-275 | the inner loop takes every complete record off the buffer and stops at the first one over the limit |
| RecordFraming.Feed | hyqs/pipeline/codex.py:261-275 | one chunk keeps records and buffer in step with what was read |
| RecordFraming.AppendTail | hyqs/pipeline/codex.py:237-240 | the tail is always the end of what was read |
| RecordFraming.StreamRecords | hyqs/pipeline/codex.py:252-280 | for every split into chunks the records are those of the whole stream up to the first oversized segment, which is reported at the chunk that makes it so; the tail is the end of what was read, the buffer stays within the limit plus one chunk |
| RecordFraming.StreamCodexRecords | hyqs/pipeline/codex.py:31-33 | the same for the constants in use |
| RecordFraming.LongIsFinal | hyqs/pipeline/codex.py:269-276 | after an oversized segment no later byte changes which records were due |
| RecordFraming.DueIff | hyqs/pipeline/codex.py:263-280 | how many segments are due: up to the first oversized one, the last only with something in it |
| RecordFraming.TailIs | hyqs/pipeline/codex.py:237-240 | the tail is as much of the end as fits |
| RecordFraming.StreamIs | hyqs/pipeline/codex.py:252-260 | reading goes on up to the first empty chunk |
| ConflictMarkers.ResolvePureAppendConflicts | hyqs/pipeline/conflict_autoresolve.py:34-112 | the index-driven loop resolves exactly as parsing and then joining each hunk |
| ConflictMarkers.ReadHunk | hyqs/pipeline/conflict_autoresolve.py:66-105 | the two inner loops accept exactly a well-formed hunk with unequal, non-empty sides |
| ConflictMarkers.ParseOfPrint | hyqs/pipeline/conflict_autoresolve.py:55-108 | parsing the printing of legal pieces gives them back |
| ConflictMarkers.PrintOfParse | hyqs/pipeline/conflict_autoresolve.py:55-108 | what is parsed is legal and prints back to the same lines |
| ConflictMarkers.ResolvesExactlyPrintings | hyqs/pipeline/conflict_autoresolve.py:34-112 | resolving succeeds exactly on printings of plain lines and well-formed hunks with at least one hunk, and keeps every plain line and ours before theirs |
| ConflictMarkers.ResolvedIsFinal | hyqs/pipeline/conflict_autoresolve.py:107-112 | three lines fewer per hunk, no opening marker left, nothing to resolve a second time |
| ConflictMarkers.ResolvedTextIsFinal | hyqs/pipeline/conflict_autoresolve.py:49-112 | on the text: every line of the result is one of the original, none opens a conflict, a second pass finds nothing |
| ConflictText.ResolvedIff | hyqs/pipeline/conflict_autoresolve.py:34-112 | by the places of the marker lines: a file is resolved exactly when it has an opening line and every one opens a conflict with unequal, non-empty blocks free of markers; what is left are all lines but the three of each conflict |
| ConflictMarkers.CollectResolutions | hyqs/pipeline/conflict_autoresolve.py:136-153 | all or nothing: texts for every conflicted file, or none |
| GeneratedBlock.SearchIsFirst | hyqs/pipeline/conventions_block.py:22 | the leftmost, shortest match is the first begin marker with the first end marker after it |
| GeneratedBlock.ReplacedIsFound | hyqs/pipeline/conventions_block.py:25-39 | a replaced block is found where it was put, unless an open begin marker stands before it |
| GeneratedBlock.ReplaceIsIdempotent | hyqs/pipeline/conventions_block.py:25-39 | replacing twice is a no-op if and only if no begin marker is left open and the text holds no end marker |
| GeneratedBlock.LastReplacementWins | hyqs/pipeline/conventions_block.py:25-39 | under that condition a second replacement leaves no trace of the first |
| GeneratedBlock.WrittenIsRead | hyqs/pipeline/conventions_block.py:32-34 | what is written is what stands between the markers, if and only if the same condition holds |
| GeneratedBlock.ReadIsWritten | hyqs/pipeline/conventions_block.py:32-34 | writing back what stands there changes nothing |
| GeneratedBlock.SurroundingsAreKept | hyqs/pipeline/conventions_block.py:33-39 | everything before and after the block is untouched; a new block goes after a blank line at the end |
| GeneratedBlock.ReplacedText | hyqs/pipeline/conventions_block.py:25-39 | the resulting text word for word, with the markers, the trimmed body and the fewest line breaks for an empty line before a new block |
| GeneratedBlock.IdempotenceFails | hyqs/pipeline/conventions_block.py:25-39 | the two failing inputs: an open begin marker, and an end marker in the text |
| PlanContract.GuardDecides | hyqs/pipeline/contracts.py:156-199 | the second canonical check can never fire: what passes the guard is its own normal form |
| PlanContract.ValidatePlanSemantics | hyqs/pipeline/contracts.py:223-315 | the error, in order of checks, and the stories as left behind, those before an error completed |
| PlanContract.Story.Check | hyqs/pipeline/contracts.py:242-263 | the problem with one story, given the ids before it |
| PlanContract.Story.Complete | hyqs/pipeline/contracts.py:264-276 | a test-only story gains the implementation stories it had not named |
| PlanContract.AcceptedIffAcceptable | hyqs/pipeline/contracts.py:223-315 | a plan is accepted exactly when paths are canonical, ids and impact paths unique, dependencies point up the list, target files are the union and the UI and activation answers are given |
| PlanContract.TopologicalIsAcyclic | hyqs/pipeline/contracts.py:247-254 | dependencies on earlier stories only make the graph acyclic |
| PlanContract.AcceptedPlanIsCanonical | hyqs/pipeline/contracts.py:223-288 | an accepted plan comes out unique, topological and acyclic, every test-only story behind every earlier implementation story; checking it again accepts it and changes nothing |
| PlanPaths.TestPathIff | hyqs/pipeline/contracts.py:202-221 | on the text: a component "tests", a last component beginning "test_", or one of the eight suffixes |
| PlanPaths.GuardedIff | hyqs/pipeline/contracts.py:156-199 | on the text: the paths the guard lets through |
| PlanPaths.AcceptedIffSound | hyqs/pipeline/contracts.py:223-315 | the plans accepted, told from their texts |
| PlanPaths.TestsComeLast | hyqs/pipeline/contracts.py:264-276 | in an accepted plan a story of test files only depends on every earlier story with another file, and no other story gains a dependency |
| AuditRatchet.ParseNpmAuditV2 | hyqs/pipeline/npm_audit.py:151-257 | the nested loops return exactly the refusal, the raised type error or the sorted records and attribution of the specification |
| AuditRatchet.ReadPackage | hyqs/pipeline/npm_audit.py:179-251 | one reported package |
| AuditRatchet.ReadVias | hyqs/pipeline/npm_audit.py:188-195 | its advisories: its own, then those of the packages it names |
| AuditRatchet.AttributionIsComplete | hyqs/pipeline/npm_audit.py:177-257 | a report is attributable exactly when every package in it is; then no advisory of any node is missing from the records |
| AuditRatchet.RecordsAreFounded | hyqs/pipeline/npm_audit.py:203-251 | no record without an advisory behind it, none of unknown severity, none of unknown scope in an attributable result |
| AuditRatchet.ParsedIsFit | hyqs/pipeline/npm_audit.py:151-257 | every parsed result is fit for comparison |
| AuditEvidence.RecordsAreAdvice | hyqs/pipeline/npm_audit.py:203-251 | every record is that of an advisory of a node of a reported package: its source, severity in lower case, scope by the lockfile |
| AuditEvidence.AdviceIsRecorded | hyqs/pipeline/npm_audit.py:177-251 | in an attributable result every advisory of every node of every reported package has its record |
| AuditEvidence.AttributableIffClear | hyqs/pipeline/npm_audit.py:177-257 | attributable exactly when every package has nodes, all installed, and advice, all usable, read off the report |
| AuditEvidence.ReportIsRead | hyqs/pipeline/npm_audit.py:151-175 | which reports are read at all |
| AuditEvidence.RaisedIff | hyqs/pipeline/npm_audit.py:188-200 | reading raises exactly for a named package whose via is no list, or advice on nodes that do not sort |
| AuditVerdicts.RecordsAreInOrder | hyqs/pipeline/npm_audit.py:252-254 | the records stand by advisory, package and path |
| AuditVerdicts.FindingsAre | hyqs/pipeline/npm_audit.py:279-313 | one finding per identity of either side, in order, each with the last record of either side, its status, reason and whether it blocks |
| AuditVerdicts.IndeterminateIs | hyqs/pipeline/npm_audit.py:266-278 | without attribution one finding, with the first records and the first error that says something |
| AuditVerdicts.PassesIff | hyqs/pipeline/npm_audit.py:279-312 | on the records: a candidate passes exactly when nothing as severe as the threshold is new or worse and, if asked, nothing critical is kept |
| AuditVerdicts.NothingSeriousSlipsIn | hyqs/pipeline/npm_audit.py:260-313 | on the records of any chain of trees that passed one after the other |
| AuditRatchet.ClassifyProject | hyqs/pipeline/npm_audit.py:260-313 | one finding per identity in order, or the single indeterminate one |
| AuditRatchet.UnblockedIffOnlyImproves | hyqs/pipeline/npm_audit.py:279-312 | with attribution on both sides a candidate passes exactly when every finding at or above the threshold was there at no lower risk, and the baseline policy is met |
| AuditRatchet.RatchetOnlyImproves | hyqs/pipeline/npm_audit.py:266-313 | over any chain of trees that passed one after the other, every serious finding of the last was in the first, at least as severe and not moved from development to production |
| AuditRatchet.IndeterminateOpensTheRatchet | hyqs/pipeline/npm_audit.py:266-275 | without blocking, a chain of three trees that pass one after the other and end with a new critical finding in production |
| AuditRatchet.RatchetHoldsIffIndeterminateBlocks | hyqs/pipeline/npm_audit.py:260-313 | every chain only improves exactly under the policies that block indeterminate comparisons |
| ProbeLimiter.ProbeRateLimiter.Check | hyqs/web/chat_tools.py:65-73 | one call trims, answers and appends for its own project and leaves every other queue alone |
| ProbeLimiter.Drive | hyqs/web/chat_tools.py:59-73 | over a whole run the limiter answers as the per-project queues say |
| ProbeLimiter.QueueIsTail | hyqs/web/chat_tools.py:68-72 | the queue is the end of the admissions, and what was dropped is out of every later window |
| ProbeLimiter.RefusedIffWindowIsFull | hyqs/web/chat_tools.py:65-73 | with a monotone clock a call is refused exactly when max_hits calls of its project were admitted within the window |
| ProbeLimiter.AnswersAre | hyqs/web/chat_tools.py:65-73 | the answers of a run by themselves: yes as long as fewer than max_hits within the window were |
| ProbeLimiter.AdmittedCallsSpanTheWindow | hyqs/web/chat_tools.py:65-73 | any max_hits + 1 admitted calls of one project span strictly more than the window |
| ProbeLimiter.ProjectsAreIndependent | hyqs/web/chat_tools.py:67-68 | a project's queue depends on its own calls only |
| AlembicHeads.DiscoverAlembicHeads | hyqs/pipeline/collision.py:1503-1530 | the revisions no other file references, for every order of the files |
| AlembicHeads.IsAlembicMergeResolution | hyqs/pipeline/collision.py:1637-1657 | a tuple of at least two parents equal to the heads without the file |
| AlembicHeads.CheckAlembicHeadCollisions | hyqs/pipeline/collision.py:1533-1576 | one message per touched directory with more than one head, in directory order, with its heads and their files |
| AlembicHeads.MergeIsTheOnlyHead | hyqs/pipeline/remediation.py:141-171 | after adding the generated file the new revision is the only head exactly when its id is fresh |
| AlembicHeads.MergeResolves | hyqs/pipeline/collision.py:1637-1657 | two or more heads merged under a fresh id: one head, no collision, and the file passes as a genuine merge |
| AlembicHeads.MergeReachesEverything | hyqs/pipeline/remediation.py:141-171 | every earlier revision of an acyclic history can be reached from the merge, and the history stays acyclic |
| AlembicHeads.OrderDoesNotMatter | hyqs/pipeline/remediation.py:149-152 | the same heads give the same file in any order |
| AlembicHeads.HeadAbove | hyqs/pipeline/collision.py:1503-1530 | above every revision of an acyclic history there is a head |
| AlembicHeads.HeadIffNothingBuildsOnIt | hyqs/pipeline/collision.py:1503-1530 | a revision is a head exactly when some file has it and none names it as a parent, alone or in a tuple |
| AlembicHeads.ChainHasOneHead | hyqs/pipeline/collision.py:1503-1530 | of a linear history the last revision is the only head |
| AlembicHeads.ForkCollides | hyqs/pipeline/collision.py:1533-1576 | two revisions on one parent are reported as a collision |
| AlembicHeads.CollisionIff | hyqs/pipeline/collision.py:1556-1575 | what a message says: a directory with two heads or more, these, and the names of the files that have them in text order |
| AlembicHeads.MergeOfTwo | hyqs/pipeline/remediation.py:141-172 | the file that merges two heads names both and leaves one |
| AlembicHeads.MergeFileIff | hyqs/pipeline/collision.py:1637-1657 | which files pass as merges, by their parents |

## Left out

- Python `splitlines` breaks at more characters than a line feed; files are modelled as lists of lines.
- Non-ASCII white space in `strip` and non-ASCII letters in `lower`.
- `fnmatch`, `normalize_scope_amendment_path`, `extract_scope_from_idea` and the path-evidence regular expressions: parameters.
- `json.loads` and JSON Schema validation: plans and audit reports are taken as decoded, with the shape their schema gives; booleans do not occur among the dependency lists of a chain.
- The iteration order of Python sets and the layout of the heap: methods are proved for any order of a set, and the heap is the set it holds.
- The deque of the store's own topological sort: only its verdict is used, so one Kahn loop stands for both.
- Sentinel and fenced result blocks: what `parse_result_block` does before it looks for a bare object.
- The reuse and adds contracts, and the metadata checks of security finding paths: single membership tests.
- Advisory texts, fix versions and verification commands of audit records: they do not enter the policy.
- Running npm, and the choice of projects and revisions to audit.
- Writing, staging and committing resolved files: `CollectResolutions` ends where the writes begin.
- Parsing events out of records in `codex.py`, and the concurrent reading of standard error.
- Messages, notifications, events and logs, and most of the text of failures.
- Lease and claim handling beyond the cleared failure record, restarts, and what the supervisor does to a failed job.
- The revalidation of a merge against a base that moved while it was running, beyond its outcome.
- `_amendment_paths` and the other readers of persisted JSON in the scope-amendment cycle: its record is modelled by its columns.
- Action types of the incident analyst other than `file_fix_jobs`.
- The component split of an oversized plan: a split is modelled from the created children on.
- The text of the generated migration file beyond its revision and parents, and how a migration file is parsed.
- Rows between projects in the dependency table are kept as they are; row locks and isolation are not modelled.
- Priority boosts, promotion rules, pricing, required environment and secrets: easy tables.
- ScopeCycles.ApplyAuthorizedScopeAmendment: the matching of the persisted event is a count, and the reading of evidence and relations from its payload is a parameter.
- ScopeLimits.EvidenceIsBounded: is about the paths; the identity patterns and the evidence categories, constants in every gate, are left out.
- ScopeCycles.IsHistory: a job loaded at the current sequence is taken to be loaded as it still is; planning, the scope grant of FIX and in-place repairs rewrite `allowed_paths` without touching the sequence, and those writers are not part of the history.
- RemediationFiling.CreateSupervisorRemediation: starts where the chain is going to be filed; the remediation lineage and depth, an active remediation that ends the call early, the source branch and the job rows themselves are left out.
- SplitRepointing.WaitsAfterSplit: is about children as the split creates them, with the user's rows among them and none to other jobs.

# CognitiveFrameWorks: a verified model of its deterministic core

CognitiveFrameWorks resolves a pipeline of reasoning stages for a task, calibrates the signals the stages
emit, installs itself into skill registries and evaluates agents that use it. This project models the parts
of that repository whose answers must not depend on luck, and proves what they promise. Every file is plain
Dafny; `dafny verify dfyconfig.toml` checks all of it.

| file | what it models |
|---|---|
| `Ordering.dfy` | Python's string order, stable sort, `dict.fromkeys`, duplicate-free lists, sorted listings of sets |
| `StageGraph.dfy` | the `order_after` graph: walks, cycles, topological orders, greedy orders |
| `Kahn.dfy` | Kahn's algorithm with in-degree counters, once with a sorted ready list and once with a FIFO queue |
| `Resolver.dfy` | alias expansion, requirement closure, canonical manifest order, active kernel |
| `Validator.dfy` | the manifest checker's closure loop and cycle check, and what passing it guarantees |
| `Calibration.dfy`, `SignalMerge.dfy`, `CalibrationLaws.dfy`, `CalibrationFigures.dfy` | signal calibration: an order-free specification, the loops that meet it, the algebra, the figures on small batches |
| `Attention.dfy`, `AttentionLaws.dfy` | anti-hyperfocus metrics over a trace of actions |
| `TurnProtocol.dfy`, `TurnLoop.dfy` | the race between turn-completion notifications and the `turn/start` response |
| `Text.dfy`, `GuidanceSlot.dfy`, `Adapters.dfy` | string operations, collapsing of guidance slots, adapter generation |
| `DirectiveBatch.dfy` | the check that a projection materializes a batch of directives |
| `Installer.dfy` | the ownership ledger over runs of installs and user edits; atomic publishing |
| `GetterGate.dfy` | the gate a repository workflow passes to leave CHANGING |
| `Pairing.dfy`, `PairingLaws.dfy` | paired-effect statistics between cohort arms |

Modelling choices that a reader should know:

- A dict is a list of rows (where insertion order matters) or a `map`. Manifest rows carry the stage id with its
  `requires` (`needs`) and `order_after` (`after`) lists. A lookup of an unknown stage gives empty lists, and self-edges
  and edges to absent stages are ignored, as in the code.
- The two Kahn sorts of the resolver share one method, `Kahn.SortedKahn`, because they differ only in the sort key.
- Calibration works in integer millionths, where six-digit rounding is the identity. The schema verdict of an envelope
  and the non-emptiness of its evidence list are fields of the signal.
- Cohort statistics are over the reals and unrounded; rounding to nearest commutes with the negation they are proved to satisfy.
- The repository, the workflow authority, failing renames and user edits are adversaries: arbitrary parameters or events.
- The digest function is a parameter; where it matters it is assumed to be injective.

Four statements one might expect are false of the code; each is replaced by its exact condition:

- *The turn loop never waits for a completion that was already delivered* fails even with fresh turn ids, single
  completions and no buffer overflow: a completion without an id matches the initial empty current id, fills the future,
  and makes the first response discard its own early completion (`TurnProtocol.AnonymousCompletionLosesTurn`).
  `WaitsInVainExactly` is the equivalence over whole runs: nothing else makes the loop wait in vain.
- *A batch of directives is accepted exactly when replaying it leaves the projection unchanged* fails for values that
  parse to the right content but are not written in the projection's own rendering, such as a recovery level `02`
  (`DirectiveBatch.LeadingZeroIsRefused`). `AcceptedIffReplayUnchanged` adds exactly that condition.
- *A publish that raises leaves the old tree* fails when the move of the old tree raises, because the handler then removes
  the destination (`Installer.FailedMoveLosesOldTree`), and when the old backup cannot be dropped at the end, because the
  new tree is published by then (`FailedDropPublishes`). `Installer.RuntimeRoot.AtomicReplace` states when an attempt
  publishes, when it raises and when the old tree survives, in both directions.
- *The kernel is the canonical order cut down to the active ids* fails once an active id has no place in the canonical
  order (`Resolver.UnknownIdIsNotFiltered`). `Resolver.KernelIsCanonicalFilter` is an equivalence.

The docstring of `merge_by_cause` (SISPIS/runtime/calibrate.py:101-103) says that unknown signal types are skipped; the
code rejects unregistered types, and only registered types without a table entry contribute nothing. The model follows the code.

## Model

| member | source | states |
|---|---|---|
| `Ordering.LeqIsTotalOrder` | scripts/resolver/components.py:38 | the order that breaks ties is a total order, so the sort is deterministic |
| `Ordering.LeqIsCodePointOrder` | scripts/resolver/components.py:38 | which order it is: a prefix comes first, otherwise the smaller character at the first difference decides |
| `Ordering.Dedup` | scripts/resolver/components.py:53 | the duplicate-free list of the same elements; a duplicate-free list is returned as it is |
| `Ordering.DedupKeepsFirst` | scripts/resolver/components.py:53 | its elements come in the order of their first occurrences |
| `Ordering.SortStable` | scripts/resolver/components.py:79-88 | sorting keeps the order of elements with equal keys |
| `StageGraph.TaintedIffCycle` | scripts/resolver/components.py:33-37 | some stage lies on or downstream of a cycle exactly when the graph has a closed walk |
| `StageGraph.CycleOfSubset` | scripts/resolver/components.py:72-76 | a cycle among any active ids, known or not, is a cycle of the manifest |
| `StageGraph.GreedyEmitsSound` | scripts/resolver/components.py:39-48 | emitting ready stages until none is left emits exactly the stages that no cycle reaches |
| `StageGraph.GreedyIsLexLeast` | scripts/resolver/components.py:40-48 | emitting the least ready stage gives an order that no other topological order of the same stages precedes |
| `StageGraph.GreedyIsUnique` | scripts/resolver/components.py:40-48 | with distinct keys the sort has only one possible result |
| `StageGraph.FirstComeIsUnique` | scripts/resolver/components.py:77-88 | with equal keys too: priority, then waiting time, then position decide every step |
| `Kahn.BuildGraph` | scripts/resolver/components.py:30-37 | counters and successor lists record the predecessor lists with multiplicity, without self-edges and absent ids, and name successors in manifest order |
| `Kahn.SortedKahn` | scripts/resolver/components.py:38-48 | the counter loop with a stably sorted ready list refines the greedy rule: always a least ready stage, among equals the one that became ready first, until none is ready |
| `Kahn.FifoKahn` | scripts/validate-framework.py:313-333 | the queue loop emits stages in the order in which they became ready, and the counters left positive mark exactly the stages it did not reach |
| `Resolver.CanonicalStageOrder` | scripts/resolver/components.py:28-48 | the lexicographically least topological order of exactly the stages that are neither on nor downstream of a cycle |
| `Resolver.CanonicalIsUnique` | scripts/resolver/components.py:28-48 | that description fits one list only |
| `Resolver.CanonicalIgnoresUnrealEdges` | scripts/resolver/components.py:33-36 | self-edges and edges to absent stages play no part |
| `Resolver.CanonicalOfUnordered` | scripts/resolver/components.py:38-48 | without edges the canonical order is the sorted list of the stages |
| `Resolver.CanonicalOfOneEdge` | scripts/resolver/components.py:34-37 | one `order_after` edge puts the listed stage first, whatever the names are |
| `Resolver.CanonicalIgnoresInsertionOrder` | scripts/resolver/components.py:28-32 | filling the manifest dict in another order gives the same canonical order |
| `Resolver.OrderKernel` | scripts/resolver/components.py:65-91 | raises exactly when the active ids induce a cycle; otherwise permutes the deduplicated input with predecessors first, least canonical index first, equal indexes first come first served; ids no cycle reaches give the canonical order cut down to them |
| `Resolver.KernelIsDetermined` | scripts/resolver/components.py:77-91 | that description fits one list only, for unknown ids and ids behind a cycle as well |
| `Resolver.KernelOfUnknownIds` | scripts/resolver/components.py:69-80 | ids the manifest does not know keep their order in the active list |
| `Resolver.KernelSucceedsIffAcyclic` | scripts/resolver/components.py:89-90 | the length test detects exactly the cycles of the induced graph |
| `Resolver.FilteredCanonicalIsGreedy` | scripts/resolver/components.py:67-88 | the canonical order cut down to the active ids is a run of the kernel sort |
| `Resolver.KernelIsCanonicalFilter` | scripts/resolver/components.py:65-91 | the kernel equals the filtered canonical order exactly when every active id has a canonical place |
| `Resolver.UnknownIdIsNotFiltered` | scripts/resolver/components.py:77 | an unknown active id is a failing input: the kernel lists it, the filtered canonical order does not |
| `Resolver.KernelOfSubset` | scripts/resolver/components.py:65-91 | the kernel of a subset is the superset's kernel with the other stages deleted; equal sets give equal kernels |
| `Resolver.AcyclicIsSound` | scripts/resolver/components.py:28-48 | a manifest is acyclic exactly when every stage has a canonical place |
| `Resolver.RequiresClosure` | scripts/resolver/components.py:51-62 | terminates with the least set containing the input and closed under requirements, without duplicates, in the order of a single breadth-first pass although the loop rescans the list |
| `Resolver.ClosureIsDetermined` | scripts/resolver/components.py:51-62 | least closure and breadth-first order together fit one list only |
| `Resolver.ClosureIsIdempotent` | scripts/resolver/components.py:51-62 | closing a closed list returns that very list |
| `Resolver.ClosureIsMonotone` | scripts/resolver/components.py:51-62 | more active stages never close to fewer |
| `Resolver.Expand` | scripts/resolver/components.py:18-25 | the recursion with a given depth to spare computes the expansion, or fails when the depth is exceeded |
| `Resolver.ExpansionFailsExactly` | scripts/resolver/components.py:20-22 | the depth is exceeded exactly when the nodes start a longer chain of aliases |
| `Resolver.ExpandReturnsExactly` | scripts/resolver/components.py:18-25 | the exact termination condition: as many nested calls as there are aliases suffice when no alias cycle is reachable from the nodes, and no depth does otherwise |
| `Resolver.ExpansionOfConcat` | scripts/resolver/components.py:20-24 | the expansion of a list is the expansion of its parts in order |
| `Resolver.ExpansionOfOne` | scripts/resolver/components.py:21-24 | an alias stands for what its list expands to with one nested call less, a concrete name for itself |
| `Resolver.AliasIsReplacedInPlace` | scripts/resolver/components.py:18-25 | a flat alias is replaced where it stands by its own members in their order |
| `Resolver.ExpansionIsFinal` | scripts/resolver/components.py:18-25 | no alias is left, and expanding again changes nothing |
| `Resolver.ExpansionIgnoresDepth` | scripts/resolver/components.py:18-25 | more depth than needed does not influence the result |
| `Resolver.FlatAliasesExpandAtOnce` | scripts/resolver/components.py:18-25 | one nested call is enough for every list of nodes exactly when no alias lists an alias |
| `Validator.CheckProfile` | scripts/validate-framework.py:285-311 | the manifest-order loop also reaches the least closed set, and the missing set is always empty |
| `Validator.FindMissing` | scripts/validate-framework.py:303-309 | collects exactly the unlisted requirements of listed rows |
| `Validator.NothingMissingIffClosed` | scripts/validate-framework.py:303-311 | no requirement is missing exactly when the active list is closed |
| `Validator.CheckLifecycle` | scripts/validate-framework.py:314-334 | passes exactly on unique ids without a cycle; otherwise names the ids on or downstream of one |
| `Validator.PassedManifestNeverFails` | scripts/resolver/components.py:89-90 | a manifest has no cycle exactly when the kernel sort raises for no active list, whatever the priority |
| `Validator.CheckerAgreesWithResolver` | scripts/validate-framework.py:292-302 | checker and resolver close a profile to the same set |
| `Validator.ValidatedProfileResolves` | scripts/resolver/task_kernel.py:34-35 | closure then kernel on a validated manifest: canonical order, no requirement missing |
| `Calibration.StrongestFloor` | SISPIS/runtime/calibrate.py:87-92 | the maximum in the order none, auto, direct, explanation, schema |
| `SignalMerge.Dedupe` | SISPIS/runtime/calibrate.py:120-132 | fails exactly on two signals of one type that disagree; otherwise keeps exactly one signal per type, with the facts of every other of that type |
| `SignalMerge.FoldCause` | SISPIS/runtime/calibrate.py:133-163 | computes every per-cause maximum and the sorted name lists |
| `SignalMerge.MergeByCause` | SISPIS/runtime/calibrate.py:104-164 | grouping, dedup and folding meet the order-free specification, failures included |
| `SignalMerge.Calibrate` | SISPIS/runtime/calibrate.py:167-189 | totals under both caps and the strongest floor, as specified without loops |
| `CalibrationFigures.RejectedExactly` | SISPIS/runtime/calibrate.py:109-115 | a batch is rejected exactly when one signal lacks a cause, is malformed, unregistered, without evidence or from the wrong source |
| `CalibrationFigures.PairConflictsExactly` | SISPIS/runtime/calibrate.py:124-129 | two accepted signals conflict exactly when they share cause and type but not both action and severity |
| `CalibrationFigures.StrongestFloorByCases` | SISPIS/runtime/calibrate.py:84-92 | schema over explanation over direct over auto over none |
| `CalibrationFigures.CalibrateOne` | SISPIS/runtime/calibrate.py:133-189 | the whole result of one accepted signal, with both caps, its floors and its record written out |
| `CalibrationFigures.EveryDimensionCounts` | SISPIS/runtime/calibrate.py:139-142 | each of the five dimensions counts in full up to two units, an unknown dimension not at all |
| `CalibrationFigures.DimensionsAddUp` | SISPIS/runtime/calibrate.py:177-179 | effects of one signal in two dimensions add up |
| `CalibrationFigures.TotalIsCapped` | SISPIS/runtime/calibrate.py:177-179 | no total exceeds ten units, whatever the base |
| `CalibrationFigures.OneCauseTakesTheLarger` | SISPIS/runtime/calibrate.py:137-147 | two types under one cause: the larger effect in every dimension, the larger intent and severity, one cap |
| `CalibrationLaws.CalibrationReadsOnlyFacts` | SISPIS/runtime/calibrate.py:104-189 | accepted batches with the same set of cause, type, action and severity calibrate alike |
| `CalibrationLaws.CalibrationIgnoresOrder` | SISPIS/runtime/calibrate.py:104-189 | permuting the signals changes neither failure nor result |
| `CalibrationLaws.AgreeingDuplicateIsNeutral` | SISPIS/runtime/calibrate.py:122-132 | an agreeing duplicate changes nothing |
| `CalibrationLaws.IndependentBatchesCompose` | SISPIS/runtime/calibrate.py:174-183 | batches with different causes compose through the base values in spite of both caps |
| `CalibrationLaws.IndependentRecordsCompose` | SISPIS/runtime/calibrate.py:117-164 | the per-cause records of the union are the records of the parts |
| `CalibrationLaws.CalibrationIsMonotone` | SISPIS/runtime/calibrate.py:133-183 | adding signals to a batch that stays accepted never lowers entropy, intent or floor |
| `CalibrationLaws.EntropyIsBounded` | SISPIS/runtime/calibrate.py:177-179 | entropy stays between the capped base and base plus two units per cause, capped |
| `CalibrationLaws.MergingCausesIsSubadditive` | SISPIS/runtime/calibrate.py:133-183 | treating two causes as one never raises entropy or intent and keeps the overall floor |
| `Attention.CriteriaAreDistinct` | integration_tests/codex_eval/trace_analysis.py:49-58 | the criteria are the sorted set of the non-empty required names, or of the names actions list when none is required |
| `Attention.Attribute` | integration_tests/codex_eval/trace_analysis.py:74-94 | an action counts towards its declared target, or towards the only criterion it lists when that target is no criterion; counts per criterion and first positions follow |
| `Attention.ResolveIsAttribution` | integration_tests/codex_eval/trace_analysis.py:75-79 | the resolved target is the criterion the action counts towards, when there is one |
| `Attention.AttributionByCases` | integration_tests/codex_eval/trace_analysis.py:75-79 | declared criterion, fallback to the one listed criterion, and no target when two positions list one |
| `Attention.Scan` | integration_tests/codex_eval/trace_analysis.py:111-140 | the running counters equal the longest run and its first leader, the longest gap of any criterion and the changes of target |
| `Attention.Measure` | integration_tests/codex_eval/trace_analysis.py:44-186 | all reported figures are the declared statements about windows of the trace |
| `Attention.StreakStep` | integration_tests/codex_eval/trace_analysis.py:120-129 | one action keeps streak, maximum and leader exact |
| `Attention.GapStep` | integration_tests/codex_eval/trace_analysis.py:135-140 | one aged criterion keeps the starvation maximum exact |
| `AttentionLaws.ActionsAreConserved` | integration_tests/codex_eval/trace_analysis.py:151-164 | counts per criterion and the unattributed count add up to the trace |
| `AttentionLaws.StreakTimesRotations` | integration_tests/codex_eval/trace_analysis.py:121-132 | a fully attributed trace is no longer than streak times rotations plus one |
| `AttentionLaws.StarvationCoversStreak` | integration_tests/codex_eval/trace_analysis.py:120-140 | with two criteria, starvation is at least the streak |
| `AttentionLaws.ManyCriteriaStarve` | integration_tests/codex_eval/trace_analysis.py:135-140 | with k criteria and k-1 actions some criterion waits k-1 actions |
| `AttentionLaws.StarvationIsLeastWindow` | integration_tests/codex_eval/trace_analysis.py:135-140 | the age plus one is the least window length that always hits every criterion |
| `AttentionLaws.ReportedFiguresAreBounded` | integration_tests/codex_eval/trace_analysis.py:151-175 | the bounds hold of the reported figures for every trace |
| `AttentionLaws.CountIsPositions` | integration_tests/codex_eval/trace_analysis.py:87-88 | a count is the number of actions with that target |
| `AttentionLaws.ChangesArePositions` | integration_tests/codex_eval/trace_analysis.py:130-132 | the rotations are the attributed actions whose target differs from the one before |
| `AttentionLaws.ReportIsDetermined` | integration_tests/codex_eval/trace_analysis.py:151-186 | the declared statements fit one report only |
| `AttentionLaws.ReportOfTwo` | integration_tests/codex_eval/trace_analysis.py:74-140 | the full report of a trace of two actions: positions from one, first run leads, each criterion ages while another is served |
| `TurnProtocol.EveryRunIsSafe` | integration_tests/codex_eval/baseline.py:48-59 | on every interleaving a recorded result carries its turn's id and the early buffer holds at most eight entries |
| `TurnProtocol.EveryAnsweredTurnIsRecorded` | integration_tests/codex_eval/baseline.py:217-235 | on every interleaving the records name exactly the answered turns in order, less the one waited for, and every result is a notified completion |
| `TurnProtocol.RaisesExactly` | integration_tests/codex_eval/baseline.py:203-204 | the stale-signal error is raised exactly at a first request after a completion without an id |
| `TurnProtocol.FutureIsSetOnce` | integration_tests/codex_eval/baseline.py:55-56 | the first completion for the current turn fills the future, later ones do not |
| `TurnProtocol.EarlyCompletionIsKept` | integration_tests/codex_eval/baseline.py:57-58 | a completion for another turn is kept exactly while fewer than eight are |
| `TurnProtocol.ResponsePopsItsOwn` | integration_tests/codex_eval/baseline.py:218 | a response takes its own early completion out of the buffer and no other |
| `TurnProtocol.WaitsInVainExactly` | integration_tests/codex_eval/baseline.py:203-230 | with fresh ids, single completions and no overflow: a run waits for a delivered completion exactly when an earlier response answered the first turn after that turn's completion and a completion without an id |
| `TurnProtocol.VainWaitPersists` | integration_tests/codex_eval/baseline.py:217-230 | only a response starts such a wait, and no event of a polite run ends one |
| `TurnProtocol.AnonymousCompletionLosesTurn` | integration_tests/codex_eval/baseline.py:55-57 | a polite run on which a completion without an id loses the first turn |
| `TurnProtocol.RepeatedCompletionLosesTurn` | integration_tests/codex_eval/baseline.py:218-227 | after any turn a repeated completion loses the next turn's early one |
| `TurnLoop.Loop.OnCompleted` | integration_tests/codex_eval/baseline.py:48-59 | the callback performs the protocol's notification step on the shared cells |
| `TurnLoop.Loop.BeginTurn` | integration_tests/codex_eval/baseline.py:203-205 | the stale-signal check and the alias of the current future |
| `TurnLoop.Loop.OnResponse` | integration_tests/codex_eval/baseline.py:217-229 | popping the buffer, filling or replacing the future, recording or waiting |
| `TurnLoop.Loop.OnResumed` | integration_tests/codex_eval/baseline.py:227-235 | the wait ends with a record and a new future |
| `GuidanceSlot.ScanStarts` | scripts/digital_psychology_adapter.py:422-426 | the cursor loop finds exactly the non-overlapping occurrences |
| `GuidanceSlot.ReplaceGuidanceSlot` | scripts/digital_psychology_adapter.py:418-437 | the slices and strips amount to head, blank line and everything from the last slot |
| `GuidanceSlot.TextWithoutSlotIsKept` | scripts/digital_psychology_adapter.py:427-428 | a text without an opening marker is returned as it is |
| `GuidanceSlot.SingleSlotIsKept` | scripts/digital_psychology_adapter.py:433-434 | a text with one closed slot is returned as it is |
| `GuidanceSlot.RaisesExactly` | scripts/digital_psychology_adapter.py:430-432 | the error is raised exactly when there is a slot and no closing marker at or after the last one |
| `GuidanceSlot.TwoSlotsCollapse` | scripts/digital_psychology_adapter.py:435-437 | of two slots the text between disappears, and one blank line separates the cleaned beginning from the last slot |
| `GuidanceSlot.CollapsedKeepsLastSlot` | scripts/digital_psychology_adapter.py:429-437 | with several slots, everything from the last one on survives verbatim up to trailing whitespace, with its closing marker |
| `GuidanceSlot.CollapsedHasOneSlot` | scripts/digital_psychology_adapter.py:422-437 | the result has at most one opening marker under the scan |
| `GuidanceSlot.CollapsedIsIdempotent` | scripts/digital_psychology_adapter.py:418-437 | wherever it succeeds, doing it again succeeds and changes nothing |
| `DirectiveBatch.ValidateProjection` | scripts/digital_psychology_adapter.py:348-387 | accepts exactly when every last value equals the projection's rendering of its key and no directive is foreign |
| `DirectiveBatch.SingleDirective` | scripts/digital_psychology_adapter.py:356-387 | one directive is accepted exactly when the projection shows its value where its operation points |
| `DirectiveBatch.LaterDirectiveCounts` | scripts/digital_psychology_adapter.py:366-369 | of two directives for one target only the later counts, for different targets both do |
| `DirectiveBatch.LowerFolds` | scripts/digital_psychology_adapter.py:359 | framework names are compared in small letters |
| `DirectiveBatch.ReplayLastWriterWins` | scripts/digital_psychology_adapter.py:366-369 | a replay leaves every addressed key with its last value and the rest untouched |
| `DirectiveBatch.AcceptedIffReplayUnchanged` | scripts/digital_psychology_adapter.py:348-387 | accepted exactly when the replay changes nothing and every last value is in canonical text |
| `DirectiveBatch.LeadingZeroIsRefused` | scripts/digital_psychology_adapter.py:377-387 | a batch that replays to no change and is refused |
| `Installer.Registry.CleanupOwnedPaths` | scripts/install-framework.py:152-167 | removes exactly the stale owned files, in any order |
| `Installer.Registry.WriteOwnedPaths` | scripts/install-framework.py:99-121 | records the shipped paths and the digests of the regular files among them |
| `Installer.Registry.Install` | scripts/install-framework.py:506-510 | one install is one step of the ledger |
| `Installer.LedgerFollowsHistory` | scripts/install-framework.py:99-121 | on every run the manifest describes what the last install shipped, whatever users did since |
| `Installer.InstallDeletesExactly` | scripts/install-framework.py:152-167 | after any run, an install deletes exactly the files last shipped, no longer shipped and still byte-identical |
| `Installer.UserContentSurvives` | scripts/install-framework.py:158-166 | what a user put at a path survives every later run that does not touch the path |
| `Installer.RuntimeRoot.AtomicReplace` | scripts/install-framework.py:170-189 | for every choice of failing renames and removals: what each slot holds afterwards, when the staged tree is published whole, when the call raises, and when an attempt that publishes nothing leaves the old tree |
| `Installer.FailedMoveLosesOldTree` | scripts/install-framework.py:181-185 | a failing input: when only the first rename fails, no slot holds the old tree any more |
| `Installer.FailedDropPublishes` | scripts/install-framework.py:187-189 | a failing input: when only the last removal fails, the call raises with the new tree published |
| `Installer.DestinationHoldsStanding` | scripts/install-framework.py:170-189 | over any run of attempts whose removals succeed the destination holds exactly the whole tree last published and not lost since, and no backup is left |
| `GetterGate.LatestResults` | integration_tests/codex_eval/csw_setup.py:413-419 | keeps the last result of every required validator |
| `GetterGate.LatestIsUnique` | integration_tests/codex_eval/csw_setup.py:415-419 | the last result of a validator is well defined |
| `GetterGate.CompleteGetterWorkflow` | integration_tests/codex_eval/csw_setup.py:388-619 | never returns from VERIFIED; STABLE, RECOVERING and a raise out of VERIFIED exactly under their conditions, raising observations included; the handoff is the second observation |
| `GetterGate.VerifiableExactly` | integration_tests/codex_eval/csw_setup.py:415-480 | each obstacle alone keeps the workflow in CHANGING, and nothing else does |
| `GetterGate.ScopeIsSrc` | integration_tests/codex_eval/csw_setup.py:441-443 | in scope is the directory src and what lies below it |
| `GetterGate.Authority.ApplyStep` | integration_tests/codex_eval/csw_setup.py:254-269 | a step advances from its source state or is refused |
| `Pairing.CollectPair` | scripts/cohort/run_cohort.py:330-340 | one pair extends exactly the lists of the metrics both arms report |
| `Pairing.PairedSplitSummary` | scripts/cohort/run_cohort.py:298-360 | the nested loops produce the summary of every metric and outcome |
| `Pairing.IndexRows` | scripts/cohort/run_cohort.py:427-435 | fails exactly on a repeated task id, otherwise indexes every row with an id |
| `Pairing.MatchRows` | scripts/cohort/run_cohort.py:437-447 | keeps exactly the pairs of equal family and holdout, in id order, and counts the rest |
| `Pairing.PairedComparison` | scripts/cohort/run_cohort.py:425-469 | counts and split summaries of the whole comparison |
| `Pairing.SignsPartition` | scripts/cohort/run_cohort.py:292-294 | positive, negative and zero deltas add up to the pairs |
| `PairingLaws.RowsArePartitioned` | scripts/cohort/run_cohort.py:437-463 | each arm's rows split into matched, mismatched and unmatched |
| `PairingLaws.SplitsCountHoldouts` | scripts/cohort/run_cohort.py:449-455 | one split counts the matched tasks marked as held out, the other those marked as not |
| `PairingLaws.SignsArePositions` | scripts/cohort/run_cohort.py:287-294 | a delta is positive when the treatment value is the larger one, negative when it is the smaller |
| `PairingLaws.MeanOfConstant` | scripts/cohort/run_cohort.py:287-291 | when every pair differs by the same amount, treatment minus control, that amount is the mean |
| `PairingLaws.SumOfConcat` | scripts/cohort/run_cohort.py:287 | sums add over lists, and one pair contributes treatment minus control |
| `PairingLaws.ScalarsOfOne` | scripts/cohort/run_cohort.py:311-320 | a pair contributes its control value first and its treatment value second, when both are numbers |
| `PairingLaws.MetricIsRead` | scripts/cohort/run_cohort.py:278-318 | semantic metrics come from the last telemetry record, the others from the row; flags count as 0 and 1 |
| `PairingLaws.OutcomeOfOne` | scripts/cohort/run_cohort.py:323-354 | one pair of completed trials falls into the one outcome that names its two flags |
| `PairingLaws.TaskMetricIsFiled` | scripts/cohort/run_cohort.py:331-340 | a task metric is filed under the control row's family, or under unknown |
| `PairingLaws.SummaryOfFlip` | scripts/cohort/run_cohort.py:286-360 | exchanging the arms negates every mean and exchanges the one-sided counts |
| `PairingLaws.ComparisonIsAntisymmetric` | scripts/cohort/run_cohort.py:425-469 | the exchanged comparison is the mirror image, split by split |
| `PairingLaws.EffectsAddUp` | scripts/cohort/run_cohort.py:286-295 | on three arms with the same matched tasks the effect sums add along the chain |
| `Adapters.StripIsFixedPoint` | scripts/generate-adapters.py:15-22 | for every source text, stripping the header just added recovers the stripped text |
| `Adapters.StrippedIsCanonical` | scripts/generate-adapters.py:17-22 | a stripped text has no foreign line breaks and one final line feed |
| `Adapters.HeaderIsStripped` | scripts/generate-adapters.py:16-21 | the header line goes with the blank line after it, if there is one, and nothing else |
| `Adapters.TextWithoutHeaderIsKept` | scripts/generate-adapters.py:15-22 | a clean text without the header only loses its trailing whitespace |
| `Adapters.SplitAtBreak` | scripts/generate-adapters.py:16 | any single line break ends a line |
| `Adapters.SplitAtCrLf` | scripts/generate-adapters.py:16 | a carriage return and the line feed after it are one break |
| `Adapters.SplitOfJoin` | scripts/generate-adapters.py:22 | splitting undoes joining |
| `Adapters.JoinOfSplit` | scripts/generate-adapters.py:16-22 | joining undoes splitting for clean text |
| `Adapters.UnindentRecovers` | scripts/generate-adapters.py:25-27 | un-indenting the YAML block recovers the text without its trailing whitespace |
| `Adapters.IndentedByTwo` | scripts/generate-adapters.py:25-27 | lines that are not empty move two columns to the right, and the block ends in one line feed |
| `Adapters.SixVariants` | scripts/generate-adapters.py:42-49 | the names and the contents of the six files of a skill |
| `Adapters.BuildAdapterOutputs` | scripts/generate-adapters.py:30-51 | exactly the six variants of every skill with a canonical file |
| `Adapters.GenerateIsIdempotent` | scripts/generate-adapters.py:54-56 | a second generation writes the files that are already there |

## Left out

- FifoKahn: does not state the order of the queue for manifests that repeat a stage id, because the checker rejects them.
- Expand: the recursion limit is a parameter that counts alias calls only; frames of other functions do not appear.
- CheckProfile: does not state the order of the added requirements, because the checker only tests membership.
- CompleteGetterWorkflow: evidence packets, schema validation and observation records appear only as calls that may raise; that the STABLE step completes the workflow is taken from the authority's contract.
- Install: copying is an update of the file map; refusal to overwrite modified files and the rollback journal come from a module that is not part of this model.
- Loop: the end of the loop after a failed turn, a full pass or the last allowed turn; the runs of the model include every run that stops there.
- Lower: letters outside ASCII stay as they are, because the framework names it is compared with are ASCII.
- Calibrate: messages of the raised errors; which signal they name depends on arrival order.
- Measure: elapsed times, retry counters, target-source counts and per-turn yield events.
- PairedComparison: rounding, the descriptive labels of the report and the choice of the three configured comparisons.
- ValidateProjection: JSON and integer parsing are parameters with a render-then-parse law; bounds on field lengths and identifiers are left out.
- The remaining presence checks of validate-framework.py and the reports, benchmarks, doctor and acceptance scripts.
- Subprocesses, transport, git, real file systems, databases and clocks.

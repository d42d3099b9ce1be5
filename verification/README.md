# Issen: verified model of correlation, pipeline and segmentation logic

A Dafny 4.11 model of the decision logic of the `issen` forensic triage tool, with proofs.
`dafny verify dfyconfig.toml` checks everything.

What is modelled, by file:

- `Evaluator.dfy`, `EntityIndex.dfy`, `Runner.dfy`: the ordered-window evaluator, the entity index
  that replaces its full candidate scan, the rule loops that use the index and the parallel pass.
  Main result: the index changes no outcome, including the tie-break.
- `Planner.dfy`, `Pipeline.dfy`, `CrashSafety.dfy`, `Execution.dfy`, `Freshness.dfy`, `Resume.dfy`, `FlagLaws.dfy`: the
  resumable pipeline. The planner is proved for any stage type and order. The executor is a class over the
  durable rows; a run may crash after any durable step (recording a row is a deletion followed by an
  insertion) or fail in any stage, and results hold over whole histories of runs, with any flags, any
  covered stages and any inputs.
- `Fingerprint.dfy`: the sorted, separator-terminated encoding that is hashed.
- `AttackFlow.dfy`, `Graphs.dfy`, `FlowGraphs.dfy`, `ShortIds.dfy`: the breadth-first rule traversal,
  the drawing of the same bundle, when the two agree, and the node ids.
- `Temporal.dfy`: sequence, absence and discrepancy rules. `BootCycles.dfy`: boot segmentation.
  `ClauseMatcher.dfy`: the greedy clause matcher. `ShortLived.dfy`: start/exit pairing.
  `Extract.dfy`: archive extraction under a byte budget. `Timestomp.dfy`: the timestomp scorer.
- `TemporalLaws.dfy`, `BootLaws.dfy`, `ClauseLaws.dfy`, `ExtractLaws.dfy`: what these operations return, stated
  in the fields of their inputs and outputs alone.
- `Sequences.dfy`, `Sorting.dfy`, `Numerals.dfy`, `Wrappers.dfy`: shared definitions.

Conventions. Timestamps are integers with the subset type `i64`, so every machine subtraction in a
method body is proved not to overflow. Guards, entity projections, process-lifetime thresholds, disk
rules and stage executors are arbitrary functions supplied by the caller. `evaluate` is modelled with an
arbitrary `RuleSpec`, which is what the rule wrappers pass to it. Library sorts are modelled by one stable
insertion sort; its result is the only stable sort of its input.

Where code and documentation disagree, the model follows the code:

- The front-door document, under "Resumable & re-entrant", promises that a run interrupted after ingest
  resumes at correlate, and that missing, incomplete or stale stages run. A stage whose row is Done under
  the current fingerprint is skipped although a dependency was executed since it last ran.
  `Freshness.StaleIff` says for any history exactly when this leaves a stage stale. Three ways lead there:
  a failure or interruption on changed evidence (`Resume.DoneRowsCanBeStale`), an interrupted `--rerun`
  on unchanged evidence (`Resume.InterruptedRerunEndsStale`), and a complete `--no-scan` run on changed
  evidence followed by a complete full one (`Resume.NoScanEndsStale`).
- `evaluator.rs:198-205` says the earliest consequent wins. That holds in ordered mode
  (`Evaluator.OrderedPicksEarliest`); in either-order mode the nearest one wins, which
  `Evaluator.NearestBeatsEarliest` and `Evaluator.EarliestWinsIff` make precise. There the window can even
  depend on the order of the candidates (`Evaluator.EitherOrderWindowDependsOnOrder`), exactly when
  `Evaluator.WindowStableIff` says.
- `boot_cycle.rs:45-46` promises a synthetic cycle for events before the first boot; they are dropped
  (`BootCycles.CyclesPartitionEvents`).
- `pipeline.rs:134-135` says any change of the parts changes the fingerprint; a path that contains the
  separator byte can collide (`Fingerprint.SeparatorInPathCollides`), even before hashing.
- `attack_flow.rs:302` calls operators pass-through; the drawing passes through only one
  (`FlowGraphs.OperatorChainsAreLost`). `FlowGraphs.DrawingAgreesIff` says for which bundles that matters.

## Model

| member | source | states |
|---|---|---|
| Evaluator.ScopesArePartitioned | crates/issen-correlation/src/evaluator.rs:134-151 | of two known hosts exactly one of same-host and cross-host admits; an unknown host is admitted by same-host only |
| Evaluator.Evaluate | crates/issen-correlation/src/evaluator.rs:207-277 | returns the report on the admissible candidate of least time distance, first index on ties, or nothing, as the laws below characterise it; no `i64` difference or magnitude overflows |
| Evaluator.FiresOnOneIff | crates/issen-correlation/src/evaluator.rs:142-256 | on one candidate a rule fires if and only if both types are the rule's, both times positive, the distance within the window and on the right side, the hosts equal or unknown (cross-host: known and different), an entity shared and the guard passed |
| Evaluator.InertCandidatesDoNotMatter | crates/issen-correlation/src/evaluator.rs:217-256 | any candidates that the rule would not fire on alone can be dropped without changing the outcome |
| Evaluator.ForeignHostsDoNotMatter | crates/issen-correlation/src/evaluator.rs:142-149 | a same-host or same-dump rule ignores candidates on a known host other than the anchor's; a cross-host rule ignores all others |
| Evaluator.HostsAreToldApart | crates/issen-correlation/src/evaluator.rs:142-149 | of two candidates on the anchor's host and on another, the same-host rule takes exactly the first where the cross-host rule takes exactly the second |
| Evaluator.OutcomeNamesPair | crates/issen-correlation/src/evaluator.rs:258-277 | the report names the anchor and one candidate of the list as its members in these roles, spans their times and copies the rule's fields |
| Evaluator.EvaluateIsExact | crates/issen-correlation/src/evaluator.rs:207-277 | a rule fires if and only if the anchor qualifies and some candidate is admissible; its span is then positive and within the window, and in ordered mode starts at the anchor |
| Evaluator.NearestExists | crates/issen-correlation/src/evaluator.rs:245-256 | whenever a candidate is admissible there is a first nearest one |
| Evaluator.OutcomeUnderPermutation | crates/issen-correlation/src/evaluator.rs:217-262 | permuting the candidates keeps firing and span, and in ordered mode the window |
| Evaluator.WindowStableIff | crates/issen-correlation/src/evaluator.rs:226-254 | for every rule, anchor and candidates: all candidate orders give one window if and only if the admissible candidates at the least distance lie on one side of the anchor |
| Evaluator.OrderedPicksEarliest | crates/issen-correlation/src/evaluator.rs:198-256 | in ordered mode the reported candidate is the first one of the earliest admissible time |
| Evaluator.EarliestWinsIff | crates/issen-correlation/src/evaluator.rs:198-256 | in either mode the earliest candidate wins if and only if no admissible one precedes the anchor, or those that do share one time and come ahead of all that follow it |
| Evaluator.NearestBeatsEarliest | crates/issen-correlation/src/evaluator.rs:198-256 | an either-order input on which a later candidate beats an earlier one |
| EntityIndex.BuildEntityIndex | crates/issen-correlation/src/runner.rs:279-287 | position p is posted under entity e if and only if candidate p carries e |
| EntityIndex.EntityCandidatePositions | crates/issen-correlation/src/runner.rs:296-313 | the positions are strictly increasing and are exactly the unexcluded postings of the anchor's entities |
| EntityIndex.ReducedCandidates | crates/issen-correlation/src/runner.rs:319-329 | the reduced slice lists, in original order and once each, exactly the unexcluded candidates sharing an entity with the anchor |
| EntityIndex.IndexRefinesFullScan | crates/issen-correlation/src/runner.rs:264-329 | for every rule, anchor, candidate list and excluded position, evaluating the reduced slice gives the same correlation as evaluating the full list without that position |
| EntityIndex.OutcomeOfPicks | crates/issen-correlation/src/runner.rs:293-295 | any two increasing selections that agree on the admissible positions give one outcome, tie-break included |
| Runner.RunJoin | crates/issen-correlation/src/runner.rs:370-379 | the indexed loop over two event lists reports what a full scan per anchor reports, in anchor order |
| Runner.RunProjected | crates/issen-correlation/src/runner.rs:367-380 | PERSIST-like rules: the loop over events projected onto a derived entity equals the full scan of those projections |
| Runner.RunSelfJoin | crates/issen-correlation/src/runner.rs:443-502 | the indexed self-join loop reports what a full scan of all other events reports |
| Runner.ScanReportsFiringAnchors | crates/issen-correlation/src/runner.rs:370-379 | a scan reports each anchor that fires once, in anchor order, with its own outcome |
| Runner.TypedScanIsFullScan | crates/issen-correlation/src/runner.rs:93-101 | selecting events by the rule's types beforehand changes nothing: the scan equals that of all events against all events |
| Runner.ProjectedScanIsFullScan | crates/issen-correlation/src/runner.rs:93-101 | the same for projected events |
| Runner.SelfScanIsFullScan | crates/issen-correlation/src/runner.rs:443-502 | leaving out the anchor's own position changes nothing, since no event pairs with itself |
| Runner.RunCorrelationsAppend | crates/issen-correlation/src/runner.rs:134-151 | the sequential pass reports rule by rule, in rule order |
| Runner.RunCorrelationsWithMemory | crates/issen-correlation/src/runner.rs:203-240 | for any number of rules and any completion order, the parallel pass returns the sequential firings followed by the memory firings |
| Runner.ProjectionJoins | crates/issen-correlation/src/runner.rs:93-101 | projected events share an entity if and only if their derived entities agree, and keep everything else |
| ShortLived.ShortLivedProcessNames | crates/issen-correlation/src/runner.rs:510-558 | the flagged (host, name) pairs are exactly those with a start whose nearest exit at or after it is short-lived, over events with positive time |
| ShortLived.FlaggedIff | crates/issen-correlation/src/runner.rs:510-558 | a name is flagged if and only if some positive-time `ProcessExec` and the nearest `ProcessExit` of it on the same host at or after it lie a short lifetime in whole seconds apart |
| ShortLived.NearestIsAnyIffDownwardClosed | crates/issen-correlation/src/runner.rs:504-509 | nearest pairing flags what pairing with any later exit would, on every log, if and only if the threshold is downward closed |
| ShortLived.FlaggedUnderPermutation | crates/issen-correlation/src/runner.rs:510-558 | the flagged set does not depend on event order |
| Planner.Plan | crates/issen-cli/src/pipeline.rs:100-132 | the one-pass loop computes the plan that the planner lemmas characterise |
| Planner.PlanIsLeastFixpoint | crates/issen-cli/src/pipeline.rs:88-132 | for any topological stage order the running stages are the least set containing every missing, unfinished or stale stage and closed under "a dependency runs" |
| Planner.SinglePassSufficesIffTopological | crates/issen-cli/src/pipeline.rs:27-41 | one pass reaches closure for all rows and inputs if and only if the order is topological |
| Planner.PlanByStage | crates/issen-cli/src/pipeline.rs:113-129 | every applicable stage is planned once, after its dependencies, with its own verdict or, if that is to skip and a dependency runs, an upstream rerun |
| Pipeline.OrderIsTopological | crates/issen-cli/src/pipeline.rs:27-41 | the canonical order lists every stage once, dependencies first |
| Pipeline.FlagsKeepDependencies | crates/issen-cli/src/pipeline.rs:243-253 | the opt-out flags never remove a stage that a remaining stage depends on |
| Pipeline.RunIsLeastFixpoint | crates/issen-cli/src/pipeline.rs:88-132 | whatever the flags and rows, a run plans to execute the least set of covered stages that holds every missing, unfinished or stale one and is closed under the cascade |
| Pipeline.RunPlan | crates/issen-cli/src/pipeline.rs:259-281 | the plan of a run after flags: exactly its covered stages, each after its dependencies, with its own verdict or the cascade's |
| FlagLaws.PlansIff | crates/issen-cli/src/pipeline.rs:265-274 | a run plans exactly the applicable stages with a fingerprint or, under `--only`, that one of them |
| FlagLaws.OnlyTouchesItsStage | crates/issen-cli/src/pipeline.rs:265-269 | under `--only` no other stage begins and no other row changes, wherever the run stops |
| FlagLaws.OnlyPlansItsStage | crates/issen-cli/src/pipeline.rs:265-269 | under `--only` the plan has exactly one entry, for that stage, or the run takes no step at all if the stage is not applicable |
| FlagLaws.ReasonIff | crates/issen-cli/src/pipeline.rs:113-129 | which of the five verdicts a planned stage gets, from its row, its fingerprint, `--rerun` and the rows of ingest and memory |
| FlagLaws.ApplicableIff | crates/issen-cli/src/pipeline.rs:243-253 | disk evidence makes ingest, correlate and scan applicable and memory evidence memory; each opt-out flag removes its own stage |
| Pipeline.CaseDb.RunStage | crates/issen-cli/src/pipeline.rs:402-406 | marks, executes and records one stage, stopping where the crash budget ends or the stage fails |
| Pipeline.CaseDb.RunBare | crates/issen-cli/src/pipeline.rs:385-411 | the durable rows and the history of steps after a run, for any crash point and any failing stages; success exactly when no stage fails and no crash occurs |
| Pipeline.CaseDb.PerformAll | crates/issen-timeline/src/store.rs:199-218 | durable steps land in order up to the crash point; a row write is a deletion then an insertion |
| Pipeline.ReportAccounts | crates/issen-cli/src/pipeline.rs:337-342 | the report lists every planned stage once, run with its reason or skipped |
| CrashSafety.RowsAreJustified | crates/issen-cli/src/pipeline.rs:376-411 | over any history of crashing and failing runs, a Done row means that the stage's last steps are marking under that fingerprint, begin, finish and recording; an Incomplete row is an unfinished attempt |
| CrashSafety.EveryHistoryIsJustified | crates/issen-cli/src/pipeline.rs:376-411 | the same for every history that starts from the empty case |
| Execution.BeginsIffExecutes | crates/issen-cli/src/pipeline.rs:385-411 | a run begins a stage if and only if it is planned to run, no stage planned before it fails and the crash comes after its third step; read off the inputs of the run |
| Execution.UnfinishedStageIsRetried | crates/issen-cli/src/pipeline.rs:113-118 | a stage without a Done row is planned by the next run that covers it, which begins it if and only if it gets that far, wherever it stops afterwards |
| Execution.HistoryBegins | crates/issen-cli/src/pipeline.rs:385-411 | over any history a stage has begun if and only if it had before or some run executed it |
| CrashSafety.TraceBegins | crates/issen-cli/src/pipeline.rs:396-407 | in a run without failures exactly the stages planned to run begin |
| Freshness.RunFreshIff | crates/issen-cli/src/pipeline.rs:385-411 | the law of every run, whatever its flags, inputs and stop and whether or not it covers the stages: a stage ends up to date with a dependency if and only if the run executed it, or it was up to date before and the run did not execute the dependency |
| Freshness.HistoryFreshIff | crates/issen-cli/src/pipeline.rs:385-411 | the same over any history of runs, by which run executed which stage last |
| Freshness.StaleIff | crates/issen-cli/src/pipeline.rs:376-411 | after any history and one complete run that covers the stage, it has missed the latest output of a dependency if and only if that run was content with the rows and some run executed the dependency after every run that executed the stage |
| Freshness.SkipsIffContented | crates/issen-cli/src/pipeline.rs:113-125 | a run skips a covered stage if and only if it is not forced and the rows of the stage and of its covered dependencies are Done under their current fingerprints |
| Freshness.CompleteHistoriesAreFresh | crates/issen-cli/src/pipeline.rs:385-411 | over any history of complete runs, none of which covers the dependency without the stage, a run that covers the stage leaves it Done and executed on the latest output |
| Freshness.CompleteRunFreshIff | crates/issen-cli/src/pipeline.rs:119-125 | after a complete run from any state, a stage is up to date with a dependency if and only if the run executed it or it was up to date before |
| Freshness.CompleteRunRow | crates/issen-cli/src/pipeline.rs:402-406 | a complete run leaves every stage it covers Done under its current fingerprint |
| Freshness.SecondRunIsNoOp | crates/issen-cli/src/pipeline.rs:377-380 | after a complete run, an unforced run with equal fingerprints skips every stage, completes and changes nothing, wherever it would crash |
| Resume.StageAfterStop | crates/issen-cli/src/pipeline.rs:380-411 | after a run stopped anywhere, a stage is untouched with its old row, or recorded Done after executing on the latest dependencies, or has no Done row |
| Resume.ResumeFreshIff | crates/issen-cli/src/pipeline.rs:376-411 | any run followed by a complete one: the stage ends up to date if and only if the second run is not content with its rows, the first executed it, or it was up to date before and the first did not execute the dependency |
| Resume.FailedCorrelationLeavesScanBehind | crates/issen-cli/src/pipeline.rs:396-407 | whenever the ingest runs, by itself or forced, and correlation fails, the resumption leaves a Done scan stale |
| Resume.InterruptedAfterIngestLeavesBothBehind | crates/issen-cli/src/pipeline.rs:376-407 | interrupted right after ingesting, forced or not, the resumption leaves Done correlate and scan stale |
| Resume.RestrictedRunLeavesScanBehind | crates/issen-cli/src/pipeline.rs:243-281 | without any failure: a complete run that ingests and does not cover the scan leaves it stale after the next complete run |
| Resume.DoneRowsCanBeStale | crates/issen-cli/src/pipeline.rs:376-411 | a three-run history with one failure after which every row is Done under its current fingerprint while the scan never saw the current ingest output |
| Resume.InterruptedRerunEndsStale | crates/issen-cli/src/pipeline.rs:259-281 | a three-run history with an interrupted forced run on unchanged evidence that ends with correlate and scan Done and stale |
| Resume.NoScanEndsStale | crates/issen-cli/src/pipeline.rs:243-281 | a three-run history of complete unforced runs, one without the scan, that ends with the scan Done and stale |
| Fingerprint.HashedBytes | crates/issen-cli/src/pipeline.rs:138-146 | the bytes fed to the hasher are the sorted parts, each followed by the separator |
| Fingerprint.EvidenceSpelled | crates/issen-cli/src/pipeline.rs:154-184 | the bytes hashed for a piece of evidence or a dump: name, path, colon, decimal size and the unit separator |
| Fingerprint.RulesSpelled | crates/issen-cli/src/pipeline.rs:164-178 | the bytes hashed for correlate and scan, the scan's two parts sorted |
| Fingerprint.PreImagePermuted | crates/issen-cli/src/pipeline.rs:134-136 | permuted parts hash the same bytes |
| Fingerprint.PreImageCollidesIff | crates/issen-cli/src/pipeline.rs:138-146 | for all parts, two lists hash the same bytes if and only if their sorted parts fall into the same pieces at the separators |
| Fingerprint.PreImageDeterminesParts | crates/issen-cli/src/pipeline.rs:138-146 | separator-free parts hash the same bytes if and only if they are equal as multisets |
| Fingerprint.SizedPartInjective | crates/issen-cli/src/pipeline.rs:156-162 | a part determines its path and size, whatever the path contains |
| Fingerprint.IngestFingerprintIff | crates/issen-cli/src/pipeline.rs:156-184 | for separator-free paths the ingest and memory encodings change if and only if the multiset of (path, size) changes |
| Fingerprint.SeparatorInPathCollides | crates/issen-cli/src/pipeline.rs:156-162 | any two pieces of evidence collide with one whose path spells both |
| Fingerprint.StagesNeverCollide | crates/issen-cli/src/pipeline.rs:154-184 | encodings of different stages differ unless both have no inputs |
| AttackFlow.StartsWithoutFlow | crates/issen-correlation/src/attack_flow.rs:207-222 | without a flow the starts are exactly the actions no action refers to |
| AttackFlow.BundleToCorrelationRules | crates/issen-correlation/src/attack_flow.rs:190-296 | in the fields of the bundle: at most one rule, whose clauses spell the technique-bearing actions that trails of references lead to from all start references, each once, by nondecreasing length of the shortest trail; none if and only if there is no such action; terminates on cyclic and dangling bundles |
| AttackFlow.TargetIff | crates/issen-correlation/src/attack_flow.rs:207-252 | an id is a target if and only if it stands for a technique-bearing action and some trail over references of actions and operators leads to it from a start reference or, without a flow, an unreferenced action |
| AttackFlow.StartIsReached | crates/issen-correlation/src/attack_flow.rs:207-208 | every technique-bearing action among the start references is reached |
| AttackFlow.ReachedHasClause | crates/issen-correlation/src/attack_flow.rs:262-275 | every reached technique has a clause with its tag and tactic |
| AttackFlow.OrderedActions | crates/issen-correlation/src/attack_flow.rs:224-252 | the work-queue loop collects exactly the reachable technique-bearing actions in distance order |
| Graphs.FrontDistance | crates/issen-correlation/src/attack_flow.rs:229-233 | an unvisited vertex at the front of the queue is there at its breadth-first distance |
| Graphs.EmptyQueueIsComplete | crates/issen-correlation/src/attack_flow.rs:229-253 | when the queue is empty exactly the reachable ids have been visited |
| FlowGraphs.BundleToFlowGraph | crates/issen-correlation/src/attack_flow.rs:304-361 | one node an action with its short id, and one edge for every reference and operator target that names an action, in their order |
| FlowGraphs.DrawnEdges | crates/issen-correlation/src/attack_flow.rs:330-355 | the edges are exactly those that references lead to, directly or through one operator |
| FlowGraphs.DrawingIsWellFormed | crates/issen-correlation/src/attack_flow.rs:304-361 | for every bundle node ids are distinct and every edge joins declared nodes |
| FlowGraphs.EdgeMeans | crates/issen-correlation/src/attack_flow.rs:330-355 | with unique ids an edge stands for one traversal step between actions or two through an operator |
| FlowGraphs.DrawnImpliesReached | crates/issen-correlation/src/attack_flow.rs:330-355 | whatever the drawing connects the rule traversal reaches |
| FlowGraphs.DrawingAgreesIff | crates/issen-correlation/src/attack_flow.rs:229-355 | the drawing connects exactly the actions the traversal connects if and only if hops over at most one operator lead across every chain of two or more operators, a condition on the bundle alone |
| FlowGraphs.DrawingMatchesRule | crates/issen-correlation/src/attack_flow.rs:229-355 | with unique ids, starts that are actions and no operator referring to an operator, both reach the same actions |
| FlowGraphs.OperatorChainsAreLost | crates/issen-correlation/src/attack_flow.rs:344-353 | with two operators in a row the rule has a target that the drawing leaves unconnected |
| ShortIds.ShortId | crates/issen-correlation/src/attack_flow.rs:447-462 | the loop terminates and prints the bijective base-26 numeral |
| ShortIds.IndexOfShortId | crates/issen-correlation/src/attack_flow.rs:446-462 | decoding the id of n gives n, and ids are nonempty strings of capital letters |
| ShortIds.ShortIdOfIndex | crates/issen-correlation/src/attack_flow.rs:446-462 | every nonempty string of capital letters is the id of its index |
| Temporal.EvaluateTemporal | crates/issen-correlation/src/temporal_rule.rs:598-714 | one finding for each firing anchor in event order, as the laws below characterise them; no `i64` overflow for bounded timestamps |
| TemporalLaws.FindingsReport | crates/issen-correlation/src/temporal_rule.rs:598-714 | in the fields of rule, events and findings: the findings describe exactly the alarming events, once each and in order, each with the first near event of every sequence filter and the first contradiction by clause, entity and event |
| TemporalLaws.FiresIff | crates/issen-correlation/src/temporal_rule.rs:602-711 | when an anchor fires, spelled out in types, artifacts, descriptions, seconds, roles, entities, gaps and directions; the saturation of the window has no effect |
| TemporalLaws.DetailsFollowDirection | crates/issen-correlation/src/temporal_rule.rs:670-680 | with only "after" clauses every reported anchor is later than the compared event by more than some clause's gap; with none it is earlier by more |
| TemporalLaws.BeyondGapFires | crates/issen-correlation/src/temporal_rule.rs:645-696 | an anchor that passes sequence and absence fires as soon as one compared event lies beyond a clause's gap on the side its direction names |
| Temporal.EvaluateAnchor | crates/issen-correlation/src/temporal_rule.rs:602-711 | an anchor yields a finding if and only if every sequence filter has a witness in the window with another hash, no absent filter has one, and some discrepancy clause clashes or none is given |
| Temporal.FindClash | crates/issen-correlation/src/temporal_rule.rs:648-696 | the labelled-break search returns the lexicographically first clash, over all events, or none if there is none |
| Temporal.EntityKeyInjective | crates/issen-correlation/src/temporal_rule.rs:767-775 | joining on keys is joining on entities: keys are equal if and only if the entities are |
| Temporal.FiringUnderPermutation | crates/issen-correlation/src/temporal_rule.rs:598-714 | which anchors fire, and their multiset, does not depend on event order |
| Temporal.DiscrepancyIgnoresWindow | crates/issen-correlation/src/temporal_rule.rs:659-666 | a rule with only discrepancy clauses has the same findings for every window |
| Temporal.WindowMonotone | crates/issen-correlation/src/temporal_rule.rs:604-635 | widening the window never silences a rule without absences nor wakes one without sequences |
| BootCycles.SegmentByBootCycle | crates/issen-evtx/src/boot_cycle.rs:50-100 | the sorted log is cut exactly at the boot markers, one cycle each with its plain events, last clean shutdown time and the kind of the last shutdown marker since the previous boot |
| BootLaws.SegmentationSpells | crates/issen-evtx/src/boot_cycle.rs:50-100 | by positions in the sorted log: one cycle for each event 6005, holding the events other than 6005, 6006 and 6008 up to the next, the time of the last 6006 there, and the kind of the last 6006 or 6008 since the previous boot |
| BootCycles.SegmentationIsOrdered | crates/issen-evtx/src/boot_cycle.rs:50-100 | for any events given: one cycle a boot marker, boots in order, every event of a cycle is a given plain one, and events and shutdown lie between their boot and the next |
| BootCycles.ChunkingIsUnique | crates/issen-evtx/src/boot_cycle.rs:60-97 | a log has only one such cut, so the cycles are determined |
| BootCycles.CyclesPartitionEvents | crates/issen-evtx/src/boot_cycle.rs:43-100 | the cycles' events are the plain events after the first boot, each once and in order; nothing is dropped if and only if no plain event precedes the first boot; one cycle a boot marker |
| BootCycles.CyclesAreOrdered | crates/issen-evtx/src/boot_cycle.rs:54-97 | on a sorted log every event and shutdown time lies between its boot and the next |
| BootCycles.PriorKindMatchesShutdown | crates/issen-evtx/src/boot_cycle.rs:76-84 | a clean prior shutdown implies a recorded shutdown time in the previous cycle, an unknown one implies none |
| BootCycles.DurationSecs | crates/issen-evtx/src/boot_cycle.rs:36-40 | the whole seconds between boot and shutdown, whichever comes first |
| Sorting.StableSortIsUnique | crates/issen-evtx/src/boot_cycle.rs:54-54 | a sorted sequence that keeps the order of ties is the stable sort, whatever algorithm produced it |
| ClauseMatcher.Evaluate | crates/issen-correlation/src/engine.rs:9-73 | each rule in order yields its full greedy choice reported with one id and one looked-up item a clause, or nothing where the choice is stuck |
| ClauseLaws.YieldsMeans | crates/issen-correlation/src/engine.rs:16-70 | in the fields of rule, evidence and finding: one finding that spells the items taken first each time if these reach the last clause, and otherwise none |
| ClauseLaws.ChoiceIff | crates/issen-correlation/src/engine.rs:22-42 | the choices of the matcher are those whose items meet their clauses, repeat every subject before them and lie within the window of the first stamp |
| ClauseLaws.FindingsFollowRules | crates/issen-correlation/src/engine.rs:15-72 | the findings come from the rules that yield one, in rule order |
| ClauseMatcher.MatchRule | crates/issen-correlation/src/engine.rs:16-42 | every chosen item is the first that its clause accepts after those before it; no match only if the greedy choice gets stuck |
| ClauseMatcher.ChoicesAreCoherent | crates/issen-correlation/src/engine.rs:102-124 | all present subjects of a match are equal and any two present stamps differ by less than 2(w+1) seconds |
| ClauseMatcher.AnchoredMatchIff | crates/issen-correlation/src/engine.rs:22-42 | once the first pick latches subject and, under a window, time, the rule matches if and only if every later clause has an item agreeing with it |
| ClauseMatcher.ExtendableIff | crates/issen-correlation/src/engine.rs:22-42 | a partial choice, the empty one included, can be completed to a match if and only if, for some place and value at which subject and time latch, each remaining clause has a fitting item |
| ClauseMatcher.GreedyMissesIff | crates/issen-correlation/src/engine.rs:22-42 | for every rule and evidence the greedy choice misses an existing match if and only if, with subject or time still unlatched, it takes an item after which some clause lacks a fitting item although another acceptable item would leave one for each |
| ClauseMatcher.AnchoredGreedyMissesIff | crates/issen-correlation/src/engine.rs:22-42 | where every item suiting the first clause latches everything, a match is missed if and only if the first such item is not completable and some other one is |
| ClauseMatcher.UniqueAnchorIsComplete | crates/issen-correlation/src/engine.rs:22-42 | if one item alone suits the first clause and latches everything, a match is found if and only if one exists |
| ClauseMatcher.GreedyIsIncomplete | crates/issen-correlation/src/engine.rs:22-42 | an input on which a match is missed: two items suit the first clause and only the later one leads to a match |
| Extract.SafeJoin | crates/issen-archive/src/extract.rs:64-84 | resolves a name to its normal parts below the destination, or refuses it |
| Extract.ResolvesIff | crates/issen-archive/src/extract.rs:57-63 | a name resolves if and only if it has a normal part and nothing that climbs out, and then strictly below the destination |
| Extract.Extraction.WriteCapped | crates/issen-archive/src/extract.rs:88-111 | succeeds if and only if the file opens, no read or write fails before the end and the bytes charged fit the cap; charges before writing, so for caps below the largest `u64` the bytes on disk never exceed the cap at any moment; on success the file holds what was delivered and other files are unchanged |
| Extract.FitsCapIff | crates/issen-archive/src/extract.rs:104-107 | the saturating budget check agrees with the exact sum at every cap but the largest `u64` |
| Extract.Extraction.ExtractZip | crates/issen-archive/src/extract.rs:128-180 | succeeds if and only if nothing fails and the delivered bytes of the written entries fit the cap; the bomb error only on overrun; every file lies below the destination; on success report, files and sizes are what the fates of the entries predict |
| Extract.Extraction.ExtractTarGz | crates/issen-archive/src/extract.rs:189-239 | the same for tar, whose directories with unsafe names are refused |
| ExtractLaws.LinksAreRefused | crates/issen-archive/src/extract.rs:149-152 | in either format every link's name is refused, and files, sizes, bytes and written count are those of the archive without its links |
| ExtractLaws.OnlyRegularEntriesAreWritten | crates/issen-archive/src/extract.rs:154-176 | the files are those of the contained regular entries alone, counted one each; the refused names are those of links and uncontained names, in order |
| ExtractLaws.AllFineIff | crates/issen-archive/src/extract.rs:128-239 | an extraction goes through, the budget aside, if and only if every contained regular entry opens and is read to its end and every contained directory can be made |
| ExtractLaws.DeliveredUpToEnd | crates/issen-archive/src/extract.rs:100-110 | an entry delivers the bytes of its reads up to the first empty or failing one |
| ExtractLaws.PartsInOrder | crates/issen-archive/src/extract.rs:64-77 | the parts of a name are pushed in the order of the name |
| Extract.Account | crates/issen-archive/src/extract.rs:49-55 | every entry is written, refused or a directory, and the counts add up |
| Extract.LastWriteWins | crates/issen-archive/src/extract.rs:145-177 | a path holds a file if and only if some entry is written to it, with the delivered size of the last such entry |
| Extract.CapIsDetectableIff | crates/issen-archive/src/extract.rs:34-36 | the derived cap is below the largest `u64` if and only if the ratio term does not reach it, never undercuts floor or ratio, and above the floor never exceeds the ratio |
| Timestomp.DetectTimestomp | crates/issen-correlation/src/timestomp.rs:39-122 | a finding if and only if an ordering signal holds; grade as characterised below, and the signals and modifiers that hold, each once and in order |
| Timestomp.VerdictIff | crates/issen-correlation/src/timestomp.rs:39-122 | in the fields of the event: when there is a finding, and when its grade is medium, low or info |
| Timestomp.SignsIff | crates/issen-correlation/src/timestomp.rs:59-112 | which signals and which benign modifiers hold, in the fields of the event |
| Timestomp.ToleranceMonotone | crates/issen-correlation/src/timestomp.rs:52-94 | lowering the tolerance never loses a finding and never lowers its grade |
| Timestomp.ContrastIgnoresTolerance | crates/issen-correlation/src/timestomp.rs:64-74 | under the sub-second contrast the verdict is the same for all nonnegative tolerances |
| Timestomp.ShiftInvariant | crates/issen-correlation/src/timestomp.rs:39-94 | moving all stamps by whole seconds changes neither verdict nor grade while no threshold saturates |

## Left out

- Temporal.EvaluateTemporal: requires timestamps and minimum gaps below 2^62 in magnitude, because the original's `i64` sums and differences overflow beyond that; the saturation of the window is modelled.
- BootCycles.DurationSecs: requires that the difference of the two times fits `i64`, as the original subtraction does.
- Timestomp.DetectTimestomp: works on parsed stamps and a precomputed high-false-positive-path flag; metadata parsing, path matching and note text are not modelled.
- Extract.Extraction.ExtractZip: symlink detection and the zip reader's name normalisation are inputs; created directories are counted, not tracked; an unreadable archive or entry header is not modelled; the disk holds only the files this extraction writes.
- Runner.RunJoin: the rule wrappers are represented by `evaluate` with an arbitrary rule; RELOCATE carries a path beside each event and is not modelled.
- Pipeline.CaseDb.RunBare: whether a stage succeeds and where a run stops are inputs; a failing read of the rows is a stop before the first step, and rows with unknown tokens are not modelled.
- Copy-delete, beaconing, network-risk and shared-IOC rules, and the memory rules: they depend on tables and statistics that are not part of this model; in the parallel pass they are arbitrary functions.
- Which bytes a crash inside a stage leaves behind: executing a stage is a begin and an end step, and any begin counts as new output.
- SHA-256: results are about the bytes hashed, not about digests.
- Bundle parsing, corpus download, rule tables, finding texts and rendering: data and I/O.
- The 7z extraction callback: the same path check and budget as tar, without links, driven by a foreign reader.
- Temporal finding details name no anchor source: it is the debug form of an enumeration.

# fabrikk: scheduler, plans, tickets

A Dafny model of the parts of fabrikk that decide which tasks may be worked on at the same time, from the requirements of
a run artifact to the tickets that workers claim, with proofs of what those parts promise together.

## What is modelled

The main line follows one run.

- `Requirements`, `Compile`: requirements are sorted and become tasks, chained along lanes; dependencies without a real
  coupling are pruned.
- `Paths`, `Graphs`, `Tasks`: when file scopes overlap, what a dependency graph is, how deep a task lies in it.
- `WaveLayout`, `Cascade`, `Conflicts`, `Waves`, `WaveNames`: the scheduler. Tasks start in waves by depth; as long as some
  wave has two tasks with overlapping scopes, one of them moves on and drags its tight dependents along. The loops are
  methods over the list of waves. Each is proved against an abstract process on a map from task to wave number; that process
  is deterministic, ends, and fixes the resulting lists completely.
- `Plans`, `Barriers`: waves are written into slices, and slices compiled back into tasks whose barrier dependencies enforce
  the waves.
- `CycleSearch`, `Review`: the deterministic review, with its three-colour search, as a class that collects findings.
- `Drafts`: the whole way from requirements to slices, why a draft always passes its review, and why it runs safely.
- `RunMachine`, `Engine`: polls, claims, verdicts, retries and sweeps as a state machine over tickets, and the engine's
  methods as its steps.
- `Together`: exactly which tasks can be in flight together and which can be finished, from the start and from any state of a
  run, and what late verdicts and late retries undo.
- `ReviewedPlans`: what passing the review is worth for any plan, and plans that pass and fail at it.

Beside it stand the ticket store (`Tickets`, `Claims`, `TicketStore`: every locked section is one atomic step on a map of
tickets; `Locks`: how the locks are taken; `TicketText`: the text of a ticket file; `DetectCycles`, `Readiness`: its cycle
report and its lists), the two scanners for JSON in free text (`JsonScan`), and the merging of duplicate learnings (`Dedup`).
`Sorting` and `Strings` model what these use of Go's library.

A run is disciplined when claims come only from polls, name an owner and a backend, and verdicts and retries are given only
to tasks in flight, respectively blocked or repair-pending. An offer may be used long after the poll that made it.

## Where the code surprises

- With a dependency on a task outside the list, `ComputeWaves` can name two waves alike
  (`WaveNames.OpenDependencyRepeatsAName`); names are right exactly when the depths have no gap.
- The review looks for conflicts within waves of one name and never asks what a wave is called, while a barrier stands only
  between waves whose numbers are neighbours. Two slices on one file therefore pass, and can be in flight together, when
  they have no wave, when their waves have no number, when one number has two names, and when the numbers have a gap
  (`ReviewedPlans.TwinsMeet`, `ReviewedPlans.WavesThatPass`). It also lets a dependency on a later wave through, which
  compiles to tasks that wait for each other (`ReviewedPlans.LaterDependencyPasses`). Which plans that pass are safe, and
  which can be finished, `ReviewedPlans.ReviewedNeverClashesIff` and `ReviewedPlans.ReviewedFinishesIff` say exactly.
- `VerifyTask` does not ask whether its task is in flight, and `RetryTask` reads the status before it takes the lock; one
  late verdict or one late retry puts two tasks that wait for each other, or touch the same files, in flight together
  (`Together.LateVerdictDefeatsOrder`, `Together.LateVerdictClashes`, `Together.LateResetDefeatsOrder`).
- A claim with an empty owner takes any unclaimed ticket, even a done one (`Claims.UnclaimedAdmits`), and a lease ending in
  the year 10000 or later, which takes a clock or a lease centuries away, cannot be read back and protects nothing
  (`Claims.UnwritableLeaseIsOpen`).
- The store lists a task as ready when a dependency has failed (`Readiness.FailedDependencyIsReady`); the engine never
  dispatches it (`Readiness.FailedDependencyNeverRuns`).
- Requirements with and without line numbers in one lane cannot be sorted consistently when an ID without a line falls
  between two lined ones in the wrong order (`Requirements.MixedLinesFormACircle`), and otherwise can
  (`Requirements.RequirementLessIsTotalIff`).
- `withLocks` returns without unlocking when a lock directory cannot be created after an earlier lock was taken. The lock
  stays taken until the process ends (`Locks.LeakBlocks`); no circle of waiting calls arises even then.
- The counter that extracts JSON ignores brackets of the other kind (`JsonScan.CounterIsLaxer`); its block is a complete
  value exactly when its brackets nest (`JsonScan.CounterAgreesIff`).
- A ticket with a blank ID can cut the cycle report short. When it lies on a cycle with another task, a walk of the map that
  starts at one of its dependencies on such a cycle reports that dependency alone (`DetectCycles.LongerCycleSpoils`,
  `DetectCycles.EmptyIdSpoilsReport`); otherwise every list is a cycle. Whether there are any lists is right in every case
  (`DetectCycles.Detect`).
- YAML with a line `---` does not survive a rewrite of the ticket (`TicketText.DelimiterCutsYaml`).

## Model

| member | source | states |
|---|---|---|
| Strings.LowerCase | internal/compiler/compiler.go:621-635 | Folding leaves no capital: each has become its small letter, and every other character is as it was. |
| Strings.LessIff | internal/compiler/compiler.go:599-610 | A text comes before another when at the first character in which they differ it has the smaller one, or when it is a proper prefix. |
| Strings.TrimCuts | internal/compiler/compiler.go:182-188 | Trimming removes all the cut characters around a text and nothing else. |
| Paths.NormalizeIdempotent | internal/compiler/compiler.go:182-188 | Normalizing a scoped path twice is normalizing it once; the literal replacement of doubled backslashes included. |
| Paths.SlashesAround | internal/compiler/compiler.go:182-188 | Any slashes in front of or behind a clean path normalize away and nothing else does; slashes alone, or around a dot, are no path. |
| Paths.PairIsSlash | internal/compiler/compiler.go:182-188 | The first pair of backslashes, and so every one from the left, counts as a slash. |
| Paths.DirectoryOverlaps | internal/compiler/compiler.go:173-188 | A directory, whatever slashes it is written with, overlaps everything below it. |
| Paths.OverlapIffSegmentPrefix | internal/compiler/compiler.go:173-180 | Two paths overlap exactly when, once normalized, neither is empty and the segment list of one is a prefix of the other's. |
| Paths.ScopesOverlapSymmetric | internal/compiler/compiler.go:173-180 | Whether two scopes overlap does not depend on which is named first. |
| Paths.CollectConflictPaths | internal/compiler/compiler.go:340-359 | The conflict paths of a list are the normalized, non-empty ones, each once, sorted. |
| Paths.OverlapPathIsDeeper | internal/compiler/compiler.go:361-376 | The path reported for an overlapping pair is one of the two and lies inside the other. |
| Paths.ConflictPath | internal/compiler/compiler.go:317-328 | A path is reported exactly when some left path overlaps some right path, and it is the deeper one of the first such pair in sorted order. |
| Tasks.ClashIff | internal/compiler/compiler.go:312-338 | Two tasks touch overlapping files exactly when some path of one overlaps some path of the other; owned paths count only for a task that lists no files. |
| Tasks.ComputeDepth | internal/compiler/compiler.go:222-243 | The memoised recursion ends on every acyclic graph and returns the length of the longest dependency chain, leaving only correct entries in the memo. |
| Graphs.DepthIsDepth | internal/compiler/compiler.go:222-243 | The recursive depth of an acyclic graph is the length of the longest walk, for known and unknown IDs. |
| Graphs.AcyclicIffRanked | internal/compiler/compiler.go:222-243 | A finite graph is acyclic exactly when some rank falls along every dependency. |
| WaveLayout.FindWave | internal/compiler/compiler.go:445-454 | The index of the first wave that lists an ID, or -1. |
| WaveLayout.RemoveTaskId | internal/compiler/compiler.go:456-464 | Every occurrence of the ID goes, the rest stays in order. |
| WaveLayout.InsertTaskId | internal/compiler/compiler.go:474-486 | The ID is added at its place in the input order, and the list stays in that order. |
| WaveLayout.EnsureWave | internal/compiler/compiler.go:466-472 | Waves are appended, empty and named after their index, until the target exists; existing ones do not change. |
| WaveLayout.MoveTaskToWave | internal/compiler/compiler.go:434-443 | One ID moves from its wave to a later one; every other ID stays where it was and all lists stay in input order. |
| WaveLayout.PlacedUnique | internal/compiler/compiler.go:434-486 | The wave number of every ID determines every wave list: nothing about the lists is left open. |
| Cascade.ForcedUnique | internal/compiler/compiler.go:414-432 | The set of tasks a move drags along, a least fixpoint over tight dependencies, is unique. |
| Cascade.BumpKeepsOrder | internal/compiler/compiler.go:414-432 | Moving one task and everything it forces by one wave keeps every dependency in a strictly earlier wave. |
| Cascade.BumpKeepsFull | internal/compiler/compiler.go:414-443 | When the moved task left a rival behind, no wave becomes empty. |
| Cascade.PushDependents | internal/compiler/compiler.go:423-429 | The inner loop moves exactly the tight dependents that have not moved yet and queues each of them once, behind those that wait. |
| Cascade.CascadeDependents | internal/compiler/compiler.go:414-432 | The queue empties; exactly the forced tasks have moved, each by exactly one wave and none twice. |
| Conflicts.DetectFileConflicts | internal/compiler/compiler.go:288-310 | The conflicts of a wave name each task as often as it has rivals in that wave, and only rivals, each pair with its conflict path. |
| Conflicts.NoConflictsMeansFree | internal/compiler/compiler.go:288-310 | A wave without reported conflicts has no two tasks with overlapping scopes. |
| Conflicts.SelectConflictTaskToMove | internal/compiler/compiler.go:387-412 | A task with the most conflicts is chosen, and of those the last in input order. |
| Waves.GroupByDepth | internal/compiler/compiler.go:245-269 | The first layout has one wave for each depth that occurs, holding the tasks of that depth in input order, named after the depth. |
| Waves.BuildReverseDeps | internal/compiler/compiler.go:271-286 | The reverse table lists exactly the dependents of each task, in input order. |
| Waves.ResolveConflicts | internal/compiler/compiler.go:378-385 | One conflict move with its cascade is one step of the abstract process. |
| Waves.StepUnique | internal/compiler/compiler.go:206-217 | The abstract process is deterministic, and has no step from a conflict-free layout. |
| Waves.FullBounds | internal/compiler/compiler.go:206-217 | With no wave empty there are no more waves than tasks. |
| Waves.BumpLowersSlack | internal/compiler/compiler.go:206-217 | Each step strictly lowers the room left above the tasks, which is why the fixpoint is reached. |
| Waves.ResolveWave | internal/compiler/compiler.go:207-216 | One pass over the waves finds the first conflicting one and resolves it, or finds none. |
| Waves.SettleConflicts | internal/compiler/compiler.go:206-217 | The outer loop ends in a conflict-free layout, at the end of a complete run of the process. |
| Waves.LaidIsSchedule | internal/compiler/compiler.go:206-217 | A settled layout partitions the input, has no empty wave, keeps input order within waves, puts every dependency strictly earlier, and has no two overlapping scopes in a wave. |
| Waves.ComputeWaves | internal/compiler/compiler.go:191-220 | Ends for every acyclic task list with distinct IDs; the result is a schedule, the outcome of the complete run of the process from the depths, and named after depth or index. |
| Waves.DirectorySeparates | internal/compiler/compiler.go:206-217 | In a schedule a task on a directory, however it is written, and one on anything below it are in no wave together. |
| Waves.ComputedUnique | internal/compiler/compiler.go:191-220 | The waves are a function of the task list: any two results agree in number, contents and order. |
| WaveNames.WaveIndexOfName | internal/compiler/compiler.go:1047-1061 | The number written into a wave name is the number read back, for every 64-bit index. |
| WaveNames.WaveIndexReads | internal/compiler/compiler.go:1047-1061 | Blanks around a name, a plus sign and leading zeros make no difference, and numbers beyond 64 bits are none. |
| WaveNames.WaveIndexOnly | internal/compiler/compiler.go:1047-1061 | A name that has a number is a digit string behind wave-, at most with a sign, and nothing but blanks around it. |
| WaveNames.NamesMatchIffContiguous | internal/compiler/compiler.go:466-472 | Wave k is named wave-k throughout exactly when the depths of the tasks have no gap. |
| WaveNames.ClosedIsContiguous | internal/compiler/compiler.go:222-269 | When every dependency names a task of the list, the depths have no gap. |
| WaveNames.OpenDependencyRepeatsAName | internal/compiler/compiler.go:245-269 | With a dependency outside the list the names can repeat: in every result of the scheduler for a certain list it accepts, two overlapping tasks end up in different waves of the same name. |
| Requirements.RequirementLessIsTotalIff | internal/compiler/compiler.go:599-610 | On a list of requirements the comparison is a strict total order exactly when line numbers tell apart those of one ID and specification, and no requirement without a line has an ID between those of two lined ones of its lane that stand in the other order. |
| Requirements.ArrangedInOrder | internal/compiler/compiler.go:599-610 | In sorted order requirements stand by specification, then by family, then by line where both have different ones, and otherwise by ID. |
| Requirements.FamilyIs | internal/compiler/compiler.go:1173-1179 | The family of an ID is what stands before its second dash. |
| Requirements.LaneIff | internal/compiler/compiler.go:1169-1171 | Two requirements are in one lane exactly when specification and family agree. |
| Requirements.RiskIs | internal/compiler/compiler.go:663-673 | High risk is a text that says must not or security, medium one that says must, in any case of letters. |
| Requirements.EvidenceIs | internal/compiler/compiler.go:775-790 | Evidence is a file for a text that says file or artifact, a test for one that says test, and else the quality gate. |
| Requirements.GroupEvidenceIs | internal/compiler/compiler.go:752-773 | Evidence of a group is that of any member, each kind once, in string order. |
| Requirements.MixedLinesFormACircle | internal/compiler/compiler.go:599-610 | Three requirements of one lane that are such a triple. |
| Requirements.CoverageUnique | internal/compiler/compiler.go:101-109 | There is one coverage list for a task list. |
| Compile.BuildCoverage | internal/compiler/compiler.go:91-109 | Coverage has one entry for each requirement some task names, in ID order, with exactly the tasks that name it. |
| Compile.CoveringConcat | internal/compiler/compiler.go:91-100 | Coverage goes task by task in their order, |
| Compile.CoveringOfOne | internal/compiler/compiler.go:91-100 | with one entry for each time the task names the requirement. |
| Compile.ChainLanes | internal/compiler/compiler.go:48-89 | Every requirement becomes one task that depends on the previous task of its lane. |
| Compile.CompileRequirements | internal/compiler/compiler.go:34-114 | Fails exactly on an empty list; otherwise the tasks are those of some arrangement of the requirements, the sorted one when they can be ordered, and the coverage is complete. |
| Compile.CompiledFields | internal/compiler/compiler.go:58-89 | Field by field what a compiled task says about its requirement. |
| Compile.CompiledIds | internal/compiler/compiler.go:621-624 | Every compiled ID is the requirement ID behind a prefix, without capitals, and there is one for every requirement. |
| Compile.SameTaskIdIff | internal/compiler/compiler.go:621-624 | Two requirement IDs give one task ID exactly when they differ in case at most. |
| Compile.CompileIgnoresInputOrder | internal/compiler/compiler.go:42-44 | When the requirements can be ordered, the compiled tasks do not depend on the order in which the artifact lists them. |
| Compile.EachCoveredOnce | internal/compiler/compiler.go:91-100 | Every requirement is covered by exactly one task, its own, in every arrangement. |
| Compile.DependsOnPrevious | internal/compiler/compiler.go:48-56 | Each task depends on exactly the task of the previous requirement of its lane. |
| Compile.LaneIsChain | internal/compiler/compiler.go:48-89 | A lane is a chain: every task waits, directly or not, for all earlier tasks of its lane. |
| Compile.RepeatedIdClosesACircle | internal/compiler/compiler.go:48-56 | A lane that comes back to an ID compiles to tasks that wait for each other. |
| Compile.CompiledIsChained | internal/compiler/compiler.go:34-114 | Compiled tasks have distinct IDs and depend only on earlier tasks of the list, in every arrangement. |
| Compile.ChainedIsSchedulable | internal/compiler/compiler.go:191-204 | Such a list is acyclic and closed: it meets everything the scheduler needs. |
| Compile.ShouldKeepDependency | internal/compiler/compiler.go:143-147 | A dependency between known tasks is real when owned paths meet, a requirement is shared, or one writes what the other reads. |
| Compile.PruneDependencies | internal/compiler/compiler.go:117-141 | Exactly the dependencies between known tasks without a real coupling are dropped, and nothing else changes. |
| Compile.KeptConcat | internal/compiler/compiler.go:130-137 | Dependencies that stay keep their order and number. |
| Compile.KeptOne | internal/compiler/compiler.go:130-137 | and each is decided by itself. |
| Compile.PruneKeepsChained | internal/compiler/compiler.go:117-141 | Pruning keeps the list schedulable. |
| Plans.WaveIdsByTask | internal/engine/plan.go:61-66 | The table gives every task the name of its wave. |
| Plans.DraftSlices | internal/engine/plan.go:80-101 | The slices follow the tasks, each with its task's fields and the name of its task's wave. |
| Plans.DraftedFields | internal/engine/plan.go:80-101 | Field by field what a slice takes over from its task; its dependencies are those of the task, one by one, without the prefix. |
| Plans.WaveBarrierTaskIds | internal/compiler/compiler.go:1024-1045 | The barrier of a slice is exactly the tasks of the wave numbered one less. |
| Plans.MergeTaskIds | internal/compiler/compiler.go:1063-1079 | The non-blank IDs of both lists, each once. |
| Plans.CompileSlice | internal/compiler/compiler.go:518-553 | A compiled task depends on exactly the explicit dependencies of its slice and its barrier, and takes over its scope, title and risk. |
| Plans.CompileExecutionPlan | internal/compiler/compiler.go:489-577 | Fails exactly on an empty plan or an unknown requirement, naming the first; otherwise compiles every slice in order, with the risk and evidence of its requirements where it says none, and complete coverage. |
| Plans.CompiledWaits | internal/compiler/compiler.go:518-526 | A compiled task depends on exactly the tasks of its explicit dependencies and of the other slices whose wave number is one less. |
| Plans.RiskForGroupIs | internal/compiler/compiler.go:675-689 | The risk of a group is the highest of its members. |
| Barriers.CompiledIsClosed | internal/compiler/compiler.go:489-577 | Every dependency of a compiled plan names a compiled task. |
| Barriers.CompiledAcyclicIff | internal/compiler/compiler.go:518-526 | With gapless wave numbers the compiled graph, barriers included, is acyclic exactly when the explicit dependencies are and none leads to a later wave. |
| Barriers.NeverClimbsIsAcyclic | internal/compiler/compiler.go:518-526 | Whatever the waves are called: when the explicit dependencies have no cycle, and no numbered slice waits through them for one with a larger number, the compiled graph is acyclic. |
| Barriers.EarlierIsAcyclic | internal/compiler/compiler.go:518-526 | Explicit dependencies on strictly earlier waves are enough. |
| Barriers.WaitsForEarlierWaves | internal/compiler/compiler.go:1024-1045 | With gapless wave numbers every task transitively depends on every task of every earlier wave. |
| CycleSearch.CycleSearcher.Dfs | internal/engine/plan.go:873-890 | Reports only nodes on a real cycle; otherwise blackens everything reachable, extending a topological order. |
| CycleSearch.FindCycleInGraph | internal/engine/plan.go:838-852 | Sound and complete: a reported node lies on a cycle; not found comes with a topological order of all that was searched. |
| CycleSearch.NotFoundIsAcyclic | internal/engine/plan.go:838-852 | When the searched IDs include every node with dependencies, not found means acyclic. |
| Review.PlanReview.ValidateSliceIds | internal/engine/plan.go:576-613 | Adds exactly one finding for each ID used before and each that differs from an earlier one only in case. |
| Review.CollectWaveIds | internal/engine/plan.go:565-574 | The wave of the last slice of each ID. |
| Review.PlanReview.ValidateDep | internal/engine/plan.go:619-655 | Adds the one finding a dependency deserves: on itself, on an unknown slice, or within a wave; the first two are not followed. |
| Review.PlanReview.ValidateSliceDeps | internal/engine/plan.go:615-659 | Adds the findings of all dependencies in order, and builds the graph of exactly the edges to follow. |
| Review.PlanReview.DetectSliceCycles | internal/engine/plan.go:661-675 | Adds nothing when the graph has a topological order, and otherwise one finding with a node on a cycle. |
| Review.PlanReview.DetectIntraWaveConflicts | internal/engine/plan.go:682-706 | Adds exactly one finding for each pair of slices of one named wave whose scopes overlap. |
| Review.PlanReview.ReviewSlice | internal/engine/plan.go:895-929 | Adds exactly one finding for each missing or invalid field. |
| Review.PlanReview.ValidateRequirementCoverage | internal/engine/plan.go:953-993 | Adds exactly one finding for each requirement no slice covers. |
| Review.FindingsMean | internal/engine/plan.go:266-319 | What each finding says, on the slices alone: a finding of a category other than the cycle is made exactly when the slices, or the requirements, have the fault it names. |
| Review.OneFindingEach | internal/engine/plan.go:576-929 | No check makes its finding twice. |
| Review.CaseCollides | internal/engine/plan.go:576-613 | Two slice IDs that differ at most in case keep a plan from passing. |
| Review.NoFindingsIff | internal/engine/plan.go:266-319 | The findings are none exactly for a plan in good order: complete fields, distinct IDs, dependencies on other waves without a cycle, no overlap within a wave, full coverage. |
| Review.ReviewExecutionPlan | internal/engine/plan.go:266-319 | Makes all findings in order, and passes exactly the plans in good order whose run artifact could be read. |
| ReviewedPlans.ReviewedCompilesIff | internal/engine/plan.go:558-563 | A plan that passes, whatever its waves are called, compiles to closed tasks of distinct IDs; they have no cycle when no slice depends on a later wave, and with gapless wave numbers exactly then. |
| ReviewedPlans.ReviewedNeverClashesIff | internal/engine/engine.go:930-979 | A plan that passes never puts tasks on overlapping files in flight together exactly when its compiled dependencies order every such pair, or hold one of the two up by a circle. |
| ReviewedPlans.ReviewedFinishesIff | internal/engine/engine.go:930-979 | One run can bring all tasks of a plan that passes to done exactly when the compiled dependencies have no cycle; otherwise some task alone can never be finished. |
| ReviewedPlans.TwinsMeet | internal/engine/plan.go:682-706 | Two slices on one file pass, and are in flight together in some run, whenever no barrier stands between their waves: both without a wave, or in waves of different names whose numbers are no neighbours. |
| ReviewedPlans.WavesThatPass | internal/compiler/compiler.go:1024-1045 | Such waves are two blank ones, two whose names are no numbers, two names for one number, and two with a gap between them. |
| ReviewedPlans.LaterDependencyPasses | internal/engine/plan.go:615-659 | A dependency on a later wave passes, and some task of the plan can never be finished. |
| Together.CycleNeverRuns | internal/engine/engine.go:930-959 | In no run is a task on a dependency cycle ever offered, in flight or done. |
| Together.MeetIff | internal/engine/engine.go:930-979 | Two tasks of a closed list can be in flight together in some disciplined run exactly when neither depends on the other, directly or not, and nothing either waits for lies on a cycle. |
| Together.MeetFromIff | internal/engine/engine.go:930-979 | The same from any state of a disciplined run: two tasks can still be in flight together exactly when neither is done, the dependencies do not order them, and nothing either waits for, itself included, lies on a cycle or has failed. |
| Together.FinishIff | internal/engine/engine.go:930-979 | A task of a closed list can be brought to done in some disciplined run exactly when nothing it waits for, itself included, lies on a cycle. |
| Together.FinishFromIff | internal/engine/engine.go:930-979 | From any state of a disciplined run a task can be brought to done exactly when nothing it waits for, itself included, lies on a cycle or has failed. |
| Together.FinishAllFromIff | internal/engine/engine.go:930-979 | From any state of a disciplined run one further run can bring all tasks to done exactly when the dependencies have no cycle and no task has failed. |
| Together.LateVerdictDefeatsOrder | internal/engine/engine.go:238-279 | Whichever task another one waits for, there is a run after which a single failing verdict on the first, no longer in flight, is enough for both to be in flight together. |
| Together.LateVerdictClashes | internal/engine/engine.go:238-279 | So it is for any two slices on overlapping files in different waves of a compiled plan with gapless numbers and dependencies on earlier waves only. |
| Together.LateResetDefeatsOrder | internal/engine/engine.go:850-880 | So it is for a retry whose check of the status was made before the task was done. |
| Drafts.DraftExecutionPlan | internal/engine/plan.go:26-101 | Fails exactly without requirements; otherwise compiles, enriches, prunes, schedules and writes out the slices. |
| Drafts.DraftMeans | internal/engine/plan.go:26-101 | End to end, without the steps between: each slice stands for one requirement, with its ID in small letters, title, risk, paths and files, and depends on the previous requirement of its lane if the two own overlapping paths, and on nothing else. |
| Drafts.DraftKeepsEdges | internal/engine/plan.go:75-101 | Every dependency between the tasks of a draft is one between the tasks compiled from it. |
| Drafts.DraftedTasksAreFit | internal/engine/plan.go:39-59 | In whatever arrangement, and whatever exploration says, the scheduled tasks stay schedulable, complete, and cover every requirement. |
| Drafts.DraftInGoodOrder | internal/engine/plan.go:75-101 | The draft of such tasks is in good order. |
| Drafts.DraftPassesReview | internal/engine/plan.go:266-319 | Every freshly drafted plan passes its own review, for any exploration result, given non-empty requirement IDs that differ even in lower case. |
| Drafts.DraftIsNumbered | internal/engine/plan.go:75-101 | A draft's wave numbers have no gap and its dependencies lead to strictly earlier waves. |
| Drafts.DraftWavesAreConflictFree | internal/engine/plan.go:75-101 | Two slices of a draft with the same wave number never touch the same files. |
| Drafts.DraftedTasksNeverClash | internal/engine/engine.go:930-959 | End to end: of a drafted and compiled plan, in every disciplined run, no two tasks in flight at the same time touch overlapping files. |
| Drafts.DraftedPlanFinishes | internal/engine/engine.go:930-979 | End to end: from any state of a disciplined run of a drafted and compiled plan one further run can bring every task to done exactly when none has failed, and so from the start. |
| Drafts.DraftedPlanNeverStarves | internal/engine/engine.go:930-959 | End to end: as long as some task is not done and all such tasks wait to be dispatched, a poll offers one. |
| RunMachine.RunKeepsSound | internal/engine/engine.go:930-1027 | Over every disciplined run, whatever is offered, in flight or done has all its dependencies done. |
| RunMachine.PollOffersExactly | internal/engine/engine.go:930-959 | A poll offers exactly the tasks of the run that are pending or repair-pending with every dependency done. |
| RunMachine.VerdictIs | internal/engine/engine.go:805-819 | A passing verdict makes a task done, a failing one blocked with its reason, and neither offers anything. |
| RunMachine.FailedVerificationWaits | internal/engine/engine.go:805-819 | A task whose verification failed is, until it is retried, never in flight or done in any disciplined run, and no poll offers it. |
| RunMachine.NoClashInFlight | internal/engine/engine.go:930-979 | In every disciplined run of a plan with conflict-free waves, no two tasks in flight at the same time touch overlapping files. |
| RunMachine.VerdictKeepsSoundIff | internal/engine/engine.go:805-819 | A verdict keeps the state sound exactly when a pass finds the dependencies done and a failure does not undo what others have built on. |
| RunMachine.ResetKeepsSoundIff | internal/engine/engine.go:850-880 | A reset to pending, whenever it is written, keeps the state sound exactly when the task is not done, or nothing was built on it. |
| RunMachine.SomethingIsReady | internal/engine/engine.go:930-959 | In an acyclic, closed task list some unfinished task always has all its dependencies done. |
| Engine.Engine.GetPendingTasks | internal/engine/engine.go:930-959 | Exactly the tasks of the run that are pending or repair-pending, and whose dependencies are all done tasks of the run. |
| Engine.Engine.ClaimAndDispatch | internal/engine/engine.go:963-979 | One atomic claim: succeeds exactly when the ticket exists and the claim rule admits the owner, who then holds it as claimed; an error changes nothing. |
| Engine.Engine.ReleaseTask | internal/engine/engine.go:983-1002 | One atomic release: succeeds exactly for the named holder of an existing ticket, which then has the status asked for and no claim; an error changes nothing. |
| Engine.Engine.RetryTask | internal/engine/engine.go:850-880 | Refuses tasks that are not blocked or repair-pending, and otherwise sets them back to pending, in one step. |
| Engine.Engine.PersistVerificationOutcome | internal/engine/engine.go:805-819 | Writes done on a pass and blocked with a reason on a failure, as a new ticket when there is none; no other ticket changes. |
| Engine.Engine.SweepExpiredClaims | internal/engine/engine.go:1005-1027 | Reclaims exactly the expired claims of the run and leaves every other ticket alone. |
| Tickets.ParseOfFormat | internal/ticket/format.go:137-154 | A timestamp reads back as itself rounded down to the second, when its year has four digits. |
| Tickets.YearsAreGregorian | internal/ticket/format.go:137-154 | The bounds of four-digit years, in seconds, are those of the Gregorian calendar. |
| Tickets.StatusColumns | internal/ticket/format.go:75-126 | The two status columns of a ticket: what tk is shown for each of the nine states, and what a ticket of its own is read as. |
| Claims.RunKeepsConsistent | internal/ticket/claim.go:89-149 | Over every run of store operations the four claim fields are all set or all blank, a claimed ticket is in an active state, and its tk status is the one its extended status maps to. |
| Claims.ClaimConsistentIffIdentified | internal/ticket/claim.go:89-104 | A claim keeps that exactly when it names an owner and a backend. |
| Claims.UnclaimedAdmits | internal/ticket/claim.go:64-86 | A nameless owner is let in at an unclaimed ticket in any state; a named one only at a dispatchable ticket. |
| Claims.RunKeepsLinks | internal/ticket/store.go:345-378 | Over every run, links are mutual and never dangle. |
| Claims.DeadlineBounds | internal/ticket/format.go:137-154 | The exclusive window is longer than the lease less a second and no longer than the lease. |
| Claims.LeaseSurvives | internal/ticket/claim.go:38-188 | The holder keeps the lease through every interleaving in which it does not release and no active task is reset. |
| Claims.ExclusiveLease | internal/ticket/claim.go:38-263 | After such an interleaving another owner's claim succeeds exactly from the deadline on, and a sweep clears the ticket exactly when its scan was later than the deadline. |
| Claims.UnwritableLeaseIsOpen | internal/ticket/format.go:137-154 | At a claimed ticket another owner is let in exactly when the deadline has passed or the expiry could not be written in four-digit years. |
| Claims.SweepSparesRenewed | internal/ticket/claim.go:220-263 | A sweep clears no lease that reaches its scan time, however it was renewed in between. |
| TicketStore.Store.ValidateClaimEligibility | internal/ticket/claim.go:64-86 | Admits the holder, any owner once the lease has run out or cannot be read, and at an unclaimed ticket a nameless owner, or anyone if it is pending or repair-pending; refuses a live foreign claim as claimed and the rest as not claimable. |
| TicketStore.Store.ClaimTask | internal/ticket/claim.go:38-60 | Is one atomic claim: the ticket is claimed by the owner with the lease, and everything else about it, and every other ticket, is as it was; an error changes nothing. |
| TicketStore.Store.RenewClaim | internal/ticket/claim.go:153-188 | Is one atomic renewal by the holder: only the expiry and the heartbeat change. |
| TicketStore.Store.ReleaseClaim | internal/ticket/claim.go:108-149 | Is one atomic release by the holder: the status is the one asked for, the reason the new one unless blank, the claim is gone, and nothing else changes. |
| TicketStore.Store.ReclaimOne | internal/ticket/claim.go:241-263 | Re-checks expiry under the lock and, if the claim still has expired, clears it and sets the ticket back to pending. |
| TicketStore.Store.ExpiredClaims | internal/ticket/claim.go:220-231 | The unlocked scan lists exactly the claims of the run that have expired. |
| TicketStore.Store.ReclaimExpired | internal/ticket/claim.go:220-237 | Sets exactly the tickets of the run with an expired claim back to pending and leaves every other ticket alone. |
| TicketStore.Store.UpdateStatus | internal/ticket/store.go:183-209 | Is one atomic status change: status and reason read back, the claim stays in the four active states and goes with any other. |
| TicketStore.Store.WriteTask | internal/ticket/store.go:154-179 | Is one atomic write: the fields of the task read back; body, links and foreign fields are kept, and, in an active state, the claim. |
| TicketStore.Store.AddDependency | internal/ticket/store.go:240-275 | Is one atomic addition of a known dependency, at the end, unless it is there. |
| TicketStore.Store.RemoveDependency | internal/ticket/store.go:279-315 | Is one atomic removal: exactly the other dependencies stay, in order. |
| TicketStore.Store.AddNote | internal/ticket/store.go:212-235 | Extends the body at its end and changes nothing else. |
| TicketStore.Store.AddLink | internal/ticket/store.go:345-360 | Links both tickets in one atomic step, each link at the end unless it is there. |
| TicketStore.Store.RemoveLink | internal/ticket/store.go:363-378 | Unlinks both tickets in one atomic step and keeps every other link. |
| DetectCycles.BuildAdjacency | internal/ticket/deps.go:67-80 | The graph of exactly the dependencies of tasks that are not closed. |
| DetectCycles.UnfinishedIs | internal/ticket/deps.go:67-80 | Unfinished is whatever is neither done nor failed. |
| DetectCycles.ExtractCycle | internal/ticket/deps.go:148-161 | Walks the parents back from the far end of a back edge and returns the cycle up to the first empty ID behind its head: the whole cycle exactly when there is none. |
| DetectCycles.CutIsCycleIff | internal/ticket/deps.go:148-161 | A cycle cut short there is a cycle itself only when its head depends on its last element. |
| DetectCycles.NormalizeCycle | internal/ticket/deps.go:164-179 | Rotates a cycle so that it starts at its smallest ID. |
| DetectCycles.DeduplicateCycles | internal/ticket/deps.go:181-192 | Keeps one list for each joined text, the texts of all lists, and nothing else. |
| DetectCycles.KeyInjective | internal/ticket/deps.go:181-192 | When no ID contains the arrow they are joined with, different lists have different texts. |
| DetectCycles.CycleFinder.Dfs | internal/ticket/deps.go:86-108 | Reports every back edge by a list that closes it, and nothing that is no report; every node it finishes has had all its dependencies followed, and the starting node is finished last. |
| DetectCycles.EveryCycleIsHit | internal/ticket/deps.go:110-118 | On every cycle of the graph some dependency has been reported. |
| DetectCycles.StartIsReportedAlone | internal/ticket/deps.go:86-118 | A search that comes first to a dependency of the empty ID that leads back to it reports that dependency alone. |
| DetectCycles.LongerCycleSpoils | internal/ticket/deps.go:110-118 | When the empty ID lies on a cycle with another task there is such a start, and the list reported is no cycle unless that task also depends on itself. |
| DetectCycles.EmptyIdSpoilsReport | internal/ticket/deps.go:67-120 | Two tasks that wait for each other, one without an ID: the report lists the other alone, which is no cycle. |
| DetectCycles.Detect | internal/ticket/deps.go:67-120 | For every order the map is walked in: the list is empty exactly when the graph of unfinished tasks is acyclic, and otherwise some dependency of every cycle has been reported; no list appears twice, each starts at its smallest ID, and each is a simple cycle unless the empty ID lies on a cycle with another task, in which case a walk that starts behind it reports a cut list. |
| Readiness.ReadyFilter | internal/ticket/deps.go:24-40 | The dispatchable tasks whose dependencies are all closed, sorted by priority and ID. |
| Readiness.BlockedFilter | internal/ticket/deps.go:43-63 | The unfinished tasks with a dependency that is not closed, sorted the same way. |
| Readiness.ReadyListIsExact | internal/ticket/deps.go:24-40 | The ready list has exactly the ready tasks and, with distinct IDs, is in order. |
| Readiness.ReadyListIs | internal/ticket/deps.go:24-40 | Without the functions it is made with: the pending and repair-pending tasks whose dependencies are all known and done or failed, each as often as listed, by priority and then by ID. |
| Readiness.BlockedListIs | internal/ticket/deps.go:43-63 | Likewise: the tasks neither done nor failed with a dependency that is unknown, or neither done nor failed. |
| Readiness.ReadyIsPendingIff | internal/ticket/deps.go:130-137 | What the engine dispatches the store calls ready; the two agree on a task exactly when it is not ready or none of its dependencies failed. |
| Readiness.PendingIsOffered | internal/engine/engine.go:930-959 | What the listing calls pending is what a poll of the engine offers. |
| Readiness.FailedDependencyNeverRuns | internal/engine/engine.go:930-959 | A task with a failed dependency is never offered, in flight or done again in any disciplined run, and the dependency stays failed. |
| Readiness.FailedDependencyIsReady | internal/ticket/deps.go:130-137 | Such a task is nevertheless listed as ready. |
| Locks.UniqueSortedPaths | internal/ticket/store.go:458-468 | The in-place filter returns the same set of paths, strictly increasing. |
| Locks.LockOrderUnique | internal/ticket/store.go:458-468 | There is one lock order for a set of paths, however it was listed. |
| Locks.RunKeepsConsistent | internal/ticket/store.go:433-456 | In every run the lock table says exactly which call has which lock. |
| Locks.BodiesExclude | internal/ticket/store.go:433-456 | No two calls have the lock of one path. |
| Locks.NeverDeadlocks | internal/ticket/store.go:433-456 | For any number of concurrent calls on any paths, no reachable wait-for graph has a cycle. |
| Locks.SomeoneProgresses | internal/ticket/store.go:433-456 | As long as some call is under way and none has left locks behind, some call can move on. |
| Locks.EveryCallReturns | internal/ticket/store.go:433-456 | Without new calls only boundedly many moves remain; when no call can move on, every call has returned and every lock is free exactly when no move abandoned a call that had taken locks. |
| Locks.NoneLeakedIff | internal/ticket/store.go:433-456 | No call leaves locks behind exactly when no move of the run abandons a call that has taken some. |
| Locks.LeakBlocks | internal/ticket/store.go:437-440 | A call that cannot create the directory of a later lock returns with the earlier ones taken, and until its process ends another call waits. |
| TicketText.SplitOfRender | internal/ticket/format.go:364-443 | Splitting a rendered ticket gives back its YAML without the final newline and its body byte for byte, exactly when no line of the YAML but the first is ---. |
| TicketText.CorruptIff | internal/ticket/format.go:364-398 | A file is corrupt exactly when it does not start with a delimiter line, or no later line starts with one. |
| TicketText.SplitCutOff | internal/ticket/format.go:364-398 | A file cut off behind a last line --- is read, with an empty body. |
| TicketText.NoteIs | internal/ticket/store.go:224-230 | What a note adds, to the letter. |
| TicketText.DelimiterCutsYaml | internal/ticket/format.go:364-398 | YAML with such a line is cut short there. |
| TicketText.AppendExtendsBody | internal/ticket/store.go:212-235 | Text added at the end of a closed ticket is added at the end of its body, and nothing else changes. |
| TicketText.RunOnlyExtendsBody | internal/ticket/claim.go:318-329 | Over every run of frontmatter rewrites and notes, the YAML is that of the last rewrite and the body is only extended at its end, by the notes. |
| TicketText.HeadingIsAddedOnce | internal/ticket/store.go:224-230 | Once the body has the notes heading, every later note comes without one. |
| JsonScan.NestedIffFed | llmclient/collect_json.go:116-154 | A stack of awaited closers accepts exactly the properly nested bracket strings. |
| JsonScan.QuoteEndsIff | llmclient/collect_json.go:123-137 | A quote inside a string ends it exactly when an even number of backslashes stands before it, and one outside starts one. |
| JsonScan.LiteralIsSkipped | llmclient/collect_json.go:123-137 | A string literal, stated without the scanner, leaves the brackets and the place as they were. |
| JsonScan.ObjectAroundString | llmclient/collect_json.go:116-154 | An object around one string ends behind it and not before, whatever quotes and brackets the string contains. |
| JsonScan.BracketsAre | llmclient/collect_json.go:138-150 | Outside strings the brackets are the four characters, in two pairs. |
| JsonScan.StuckStays | llmclient/collect_json.go:142-145 | Once a bracket does not fit, no longer prefix is properly nested. |
| JsonScan.BalancedJsonEnd | llmclient/collect_json.go:116-154 | Returns the length of the shortest prefix whose brackets outside strings are properly nested, and finds one whenever there is one. |
| JsonScan.ScanBalanced | internal/agentcli/agentcli.go:259-291 | Returns the text up to the first closer that brings the count to zero, or nothing. |
| JsonScan.ScannersAgree | internal/agentcli/agentcli.go:259-291 | Where the stack scanner finds the end of a value that starts with a bracket, the counter stops too, and not before. |
| JsonScan.CounterAgreesIff | internal/agentcli/agentcli.go:259-291 | With the first stop of the counter at n, some prefix is a complete value exactly when the brackets up to n nest, and then the first one ends at n. |
| JsonScan.NoStopNoEnd | internal/agentcli/agentcli.go:259-291 | A text with a complete value makes the counter stop. |
| JsonScan.ExtractJsonBlock | internal/agentcli/agentcli.go:246-256 | Nothing outside the text. At a bracket: nothing means that no prefix is a complete value; a block is the text up to the first stop of the counter, and a complete value exists exactly when the brackets of that block nest, and is then the block. |
| JsonScan.CounterIsLaxer | internal/agentcli/agentcli.go:259-291 | A text whose brackets do not nest that the counter accepts and the stack scanner refuses. |
| Dedup.SharedTagCount | internal/learning/store.go:849-861 | Counts the entries of the second list that are tags of the first, repetitions included. |
| Dedup.SharedConcat | internal/learning/store.go:849-861 | The count goes entry by entry. |
| Dedup.SimilarIff | internal/learning/store.go:863-876 | Summaries are similar when they are equal, or non-empty and one, in any case of letters, contains the other. |
| Dedup.EffectivenessIs | internal/learning/types.go:43-48 | Effectiveness is the share of successes where there have been trials, and otherwise the confidence. |
| Dedup.TryMergeDuplicate | internal/learning/store.go:836-847 | Of a duplicate pair the later entry is superseded unless it is strictly more effective, and then the earlier one; nothing else changes. |
| Dedup.ApplyDedup | internal/learning/store.go:813-827 | The array and the count are those of the pass, in which an entry goes on merging after it has been superseded itself. |
| Dedup.PassIs | internal/learning/store.go:813-827 | The outcome of a pass over entries with IDs, without running it: which entries have a turn, which is superseded by which, and how many pairs merge. |
| Dedup.PassDeduplicates | internal/learning/store.go:813-827 | A pass supersedes only by a duplicate that is better, or as good and earlier, and, when no ID is empty, leaves no two active duplicates. |
| Dedup.PassSparesInactive | internal/learning/store.go:813-834 | A pass leaves expired and superseded entries alone, changes only the superseder of any other, and names only entries that were neither. |
| Dedup.ChainsClimb | internal/learning/store.go:813-847 | Every chain of supersessions from an entry active before the pass climbs strictly, so it is shorter than the store is long. |
| Dedup.ChainEndsActive | internal/learning/store.go:813-847 | From every entry active before the pass, following the superseders ends at an entry still active and at least as effective. |
| Dedup.NoCircle | internal/learning/store.go:813-847 | No circle of supersessions arises. |

## Left out

- Waves, slices and tasks are values that methods reassign; sharing of the backing arrays of Go slices is not modelled.
- Letter case is folded for ASCII letters only, and one character stands for one byte; Unicode folding is not modelled.
- YAML, JSON, SHA-256, ETags, atomic file writes and partial reads: a ticket is a record and every write succeeds.
- Resolving partial ticket IDs: operations take exact IDs.
- The bulk rewrite of all tickets and the removal of orphans: only the state it leaves, all tasks pending and unclaimed, is
  where runs start.
- Extraction of a title from a ticket's first heading, and the sections a new ticket is created with.
- Owned paths inferred from requirement text, and files matched by exploration: the first are an input of a requirement, the
  second any function of the owned paths.
- Models, tags, slugs, constraints, validation checks and implementation details of tasks and slices.
- The ask-first gate, hashes, events, council review and approval around drafting and reviewing a plan.
- Numbers of findings, repair texts, warnings, and the registry of files shared between waves.
- Coverage check of the artifact after compiling: a set difference.
- Fairness of file locks, and calls that take locks while holding some: no store operation does.
- Rounding of effectiveness scores, which are real numbers here; the other passes of store maintenance.
- Drafts.DraftExecutionPlan: requires requirement IDs that differ even in lower case. `IngestSpecs`
  (internal/compiler/ingester.go:14-75) sees to it: it takes upper-case IDs only and refuses one it has met before, in
  whichever specification. Artifacts written by hand that repeat an ID are not covered; on such lanes the recursion for depths
  need not end (`Compile.RepeatedIdClosesACircle`).
- Reading specifications: the pattern of requirement lines, and the refusals just named.
- Waves.ComputeWaves: requires distinct IDs and no dependency cycle, as the recursion for depths does.
- Engine.Engine.PersistVerificationOutcome: the verdict is one atomic write; that the engine has read the task some time before
  is what the late verdicts of `Together` stand for.
- Engine.Engine.RetryTask: the check of the status and the write are one step of the method, although the check is made without
  the lock; a late write is `Retry` as a step of the machine, of which `RunMachine.ResetKeepsSoundIff` and
  `Together.LateResetDefeatsOrder` speak.
- Engine.Engine.ClaimAndDispatch, and likewise Engine.Engine.ReleaseTask: a task store that cannot claim, for which the engine
  only sets the status; the ticket store can.
- Engine.Engine.SweepExpiredClaims: scan and re-checks in one go, as `TicketStore.Store.ReclaimExpired`.
- ReviewedPlans.ReviewedCompilesIff: with gaps in the wave numbers only one direction, because whether a dependency on a later
  wave closes a circle then depends on which barriers the gaps leave standing.
- Locks.LeakBlocks: the operating system frees a lock when the process ends; processes and their ends are not modelled.
- TicketStore.Store.ReclaimExpired: the method does scan and re-checks in one go; interleavings between them are those of `Claims.LeaseSurvives`.
- DetectCycles.Detect: when the empty ID lies on a cycle with another task, which lists are no cycles depends on the order in which
  the map is walked; proved is that some order yields one, unless every task on such a cycle that the empty ID depends on also
  depends on itself.
- DetectCycles.DeduplicateCycles: two lists with one joined text are one; that differs from equal lists only for IDs with an arrow in them.
- Tickets.ParseOfFormat: holds for instants after the epoch and before the year 10000; `Claims.UnwritableLeaseIsOpen` says
  what becomes of later ones.

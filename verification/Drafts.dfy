/** From requirements to a running plan: every freshly drafted plan passes its own review, and runs safely. */
module Drafts {
  import opened Strings
  import opened Graphs
  import opened Paths
  import opened Tasks
  import opened WaveLayout
  import opened Conflicts
  import opened Waves
  import opened WaveNames
  import opened Requirements
  import opened Compile
  import opened Plans
  import opened Barriers
  import opened Review
  import opened RunMachine
  import opened Claims
  import opened Together

  // ----- DraftExecutionPlan -----

  /** What exploration says about the files a task with these owned paths will touch; None is no exploration. */
  type Exploration = Option<seq<string> -> seq<string>>

  function Enriched(task: Task, exploration: Exploration): Task {
    match exploration
    case None => task
    case Some(touched) => task.(filesLikelyTouched := touched(task.ownedPaths))
  }

  function EnrichedTasks(tasks: seq<Task>, exploration: Exploration): (r: seq<Task>)
    ensures |r| == |tasks| && forall i | 0 <= i < |r| :: r[i] == Enriched(tasks[i], exploration)
  {
    seq(|tasks|, i requires 0 <= i < |tasks| => Enriched(tasks[i], exploration))
  }

  ghost predicate IsPruned(tasks: seq<Task>, pruned: seq<Task>) {
    && |pruned| == |tasks|
    && (forall i | 0 <= i < |tasks| ::
          pruned[i] == tasks[i].(dependsOn := Kept(TaskMap(tasks), tasks[i], tasks[i].dependsOn)))
  }

  /** `slices` is the draft of a task list: its schedule written out. */
  ghost predicate IsDraft(tasks: seq<Task>, gate: string, slices: seq<Slice>) {
    exists waves, levels :: Schedule(tasks, waves) && Computed(tasks, waves) && Titled(tasks, waves, levels)
                            && Drafted(tasks, waves, gate, slices)
  }

  /** The tasks that are scheduled: compiled in some arrangement, enriched, pruned. */
  ghost predicate IsPlanned(requirements: seq<Requirement>, exploration: Exploration, tasks: seq<Task>) {
    exists compiled :: CompiledTo(requirements, compiled) && IsPruned(EnrichedTasks(compiled, exploration), tasks)
  }

  /** The whole way from requirements to slices. */
  ghost predicate DraftOf(requirements: seq<Requirement>, exploration: Exploration, gate: string, slices: seq<Slice>) {
    exists tasks :: IsPlanned(requirements, exploration, tasks) && IsDraft(tasks, gate, slices)
  }

  /** The pure part of `DraftExecutionPlan`. */
  method DraftExecutionPlan(requirements: seq<Requirement>, exploration: Exploration, gate: string)
    returns (slices: Option<seq<Slice>>)
    requires DistinctFolded(requirements)
    ensures slices.None? <==> requirements == []
    ensures slices.Some? ==> DraftOf(requirements, exploration, gate, slices.value)
  {
    hide DistinctFolded, Chained, Acyclic, Schedule, Computed, Titled, Drafted, Enriched, CompiledTo, Kept;
    var compiled := CompileRequirements(requirements);
    if compiled.Failure? {
      return None;
    }
    var enriched := EnrichedTasks(compiled.value.tasks, exploration);
    var tasks := PruneDependencies(enriched);
    assert Chained(tasks) by {
      CompiledIsChained(requirements, compiled.value.tasks);
      EnrichKeepsChained(compiled.value.tasks, exploration);
      PruneKeepsChained(enriched, tasks);
    }
    ChainedIsSchedulable(tasks);
    assert UniqueIds(tasks) by { ChainedIsUnique(tasks); }
    var waves;
    ghost var levels;
    waves, levels := ComputeWaves(tasks);
    assert forall j, k, id | 0 <= j < k < |waves| && id in waves[j].tasks :: id !in waves[k].tasks by {
      WavesAreDisjoint(tasks, waves);
    }
    var drafted := DraftSlices(tasks, waves, gate);
    assert IsDraft(tasks, gate, drafted);
    assert IsPlanned(requirements, exploration, tasks);
    slices := Some(drafted);
  }

  lemma ChainedIsUnique(tasks: seq<Task>)
    requires Chained(tasks)
    ensures UniqueIds(tasks)
  {
  }

  lemma WavesAreDisjoint(tasks: seq<Task>, waves: seq<Wave>)
    requires Schedule(tasks, waves)
    ensures forall j, k, id | 0 <= j < k < |waves| && id in waves[j].tasks :: id !in waves[k].tasks
  {
  }

  lemma EnrichKeepsChained(tasks: seq<Task>, exploration: Exploration)
    requires Chained(tasks)
    ensures Chained(EnrichedTasks(tasks, exploration))
  {
    var enriched := EnrichedTasks(tasks, exploration);
    forall i, d | 0 <= i < |enriched| && d in enriched[i].dependsOn
      ensures exists j :: 0 <= j < i && enriched[j].id == d
    {
      var j :| 0 <= j < i && tasks[j].id == d;
      assert enriched[j].id == d;
    }
  }

  // ----- tasks fit to be drafted -----

  /** A lower-case ID behind the task prefix, so that it survives the way to a slice and back. */
  predicate FoldedId(id: Id) {
    TASK_PREFIX < id && Lower(id[5..]) == id[5..]
  }

  lemma FoldedRoundTrip(id: Id)
    requires FoldedId(id)
    ensures TaskIdFromSliceId(SliceIdFromTaskId(id)) == id
    ensures Lower(SliceIdFromTaskId(id)) == SliceIdFromTaskId(id) != ""
  {
    assert id == TASK_PREFIX + id[5..];
  }

  /** Every field the review asks for is there. */
  predicate FieldsReady(t: Task) {
    t.title != "" && t.requirementIds != [] && t.ownedPaths != [] && t.requiredEvidence != []
      && IsValidRisk(t.riskLevel)
  }

  /** A task list the scheduler accepts, with IDs that survive, and the fields a review asks for. */
  ghost predicate Fit(tasks: seq<Task>) {
    && Chained(tasks) && tasks != []
    && (forall i | 0 <= i < |tasks| :: FoldedId(tasks[i].id) && FieldsReady(tasks[i]))
  }

  lemma TaskOfIsReady(r: Requirement, deps: seq<Id>)
    requires r.id != ""
    ensures var t := TaskOf(r, deps);
            FoldedId(t.id) && FieldsReady(t) && t.requirementIds == [r.id] && t.dependsOn == deps
  {
    LowerIdempotent(r.id);
    assert TaskIdOf(r.id)[5..] == Lower(r.id);
  }

  lemma EnrichedUnchanged(t: Task, exploration: Exploration)
    ensures Enriched(t, exploration) == t.(filesLikelyTouched := Enriched(t, exploration).filesLikelyTouched)
  {
  }

  /** A planned task is that of its requirement, but for the dependencies pruned and the files explored. */
  lemma {:induction false} PlannedTaskIsReady(reqs: seq<Requirement>, exploration: Exploration, tasks: seq<Task>,
                                              i: nat)
    requires IsPruned(EnrichedTasks(TasksOf(reqs), exploration), tasks) && i < |reqs| && reqs[i].id != ""
    ensures i < |tasks| && FoldedId(tasks[i].id) && FieldsReady(tasks[i]) && reqs[i].id in tasks[i].requirementIds
  {
    hide Lane, FoldedId, FieldsReady, LaneDeps, Kept, Enriched, TasksOf, TaskOf;
    TasksOfAt(reqs, i);
    var t := TaskOf(reqs[i], LaneDeps(reqs[..i], Lane(reqs[i])));
    EnrichedUnchanged(t, exploration);
    TaskOfIsReady(reqs[i], LaneDeps(reqs[..i], Lane(reqs[i])));
    ReadyUnchanged(t, tasks[i]);
  }

  lemma PlannedIsChained(requirements: seq<Requirement>, exploration: Exploration, compiled: seq<Task>,
                         tasks: seq<Task>)
    requires DistinctFolded(requirements) && CompiledTo(requirements, compiled)
    requires IsPruned(EnrichedTasks(compiled, exploration), tasks)
    ensures Chained(tasks)
  {
    hide Chained, DistinctFolded, Kept, CompiledTo;
    CompiledIsChained(requirements, compiled);
    EnrichKeepsChained(compiled, exploration);
    PruneKeepsChained(EnrichedTasks(compiled, exploration), tasks);
  }

  lemma PlannedLength(requirements: seq<Requirement>, reqs: seq<Requirement>, exploration: Exploration,
                                         tasks: seq<Task>)
    requires Arranged(requirements, reqs) && IsPruned(EnrichedTasks(TasksOf(reqs), exploration), tasks)
    ensures multiset(reqs) == multiset(requirements) && |tasks| == |reqs| == |requirements|
  {
    hide Kept, Enriched, TasksOf, Orderable;
    assert |reqs| == |multiset(reqs)| == |requirements|;
  }

  /** Whatever the arrangement and whatever exploration says, the planned tasks can be scheduled, have every field a
      review asks for, and cover every requirement. */
  lemma DraftedTasksAreFit(requirements: seq<Requirement>, exploration: Exploration, tasks: seq<Task>)
    requires requirements != [] && DistinctFolded(requirements) && forall r | r in requirements :: r.id != ""
    requires IsPlanned(requirements, exploration, tasks)
    ensures Fit(tasks) && |tasks| == |requirements|
    ensures forall r | r in requirements :: exists i :: 0 <= i < |tasks| && r.id in tasks[i].requirementIds
  {
    hide Chained, Orderable, FoldedId, FieldsReady, DistinctFolded, Kept, Enriched, TasksOf, IsPruned, Arranged;
    var compiled :| CompiledTo(requirements, compiled) && IsPruned(EnrichedTasks(compiled, exploration), tasks);
    PlannedIsChained(requirements, exploration, compiled, tasks);
    var reqs: seq<Requirement> :| Arranged(requirements, reqs) && compiled == TasksOf(reqs);
    PlannedLength(requirements, reqs, exploration, tasks);
    forall i | 0 <= i < |reqs|
      ensures FoldedId(tasks[i].id) && FieldsReady(tasks[i]) && reqs[i].id in tasks[i].requirementIds
    {
      assert reqs[i] in multiset(reqs);
      assert reqs[i] in requirements;
      PlannedTaskIsReady(reqs, exploration, tasks, i);
    }
    forall r | r in requirements ensures exists i :: 0 <= i < |tasks| && r.id in tasks[i].requirementIds {
      assert r in multiset(reqs);
      var i :| 0 <= i < |reqs| && reqs[i] == r;
      assert r.id in tasks[i].requirementIds;
    }
  }

  lemma ReadyUnchanged(t: Task, u: Task)
    requires u == t.(filesLikelyTouched := u.filesLikelyTouched, dependsOn := u.dependsOn)
    ensures FieldsReady(t) ==> FieldsReady(u)
  {
  }

  // ----- what a draft says about its requirements -----

  ghost function Owned(r: Requirement): seq<string> {
    if r.inferredPaths == [] then ["internal/engine"] else r.inferredPaths
  }

  /** The files a slice lists: those exploration finds for what the requirement owns, or else what it owns. */
  ghost function Files(r: Requirement, exploration: Exploration): seq<string> {
    match exploration
    case None => Owned(r)
    case Some(touched) => if touched(Owned(r)) == [] then Owned(r) else touched(Owned(r))
  }

  /** Slice `i` stands for requirement `i`, and depends on the previous requirement of its lane if they own overlapping
      paths, and on nothing else. */
  ghost predicate DraftSays(reqs: seq<Requirement>, exploration: Exploration, gate: string, slices: seq<Slice>) {
    && |slices| == |reqs|
    && (forall i | 0 <= i < |reqs| ::
          && NoCapital(slices[i].sliceId) && SameButCase(slices[i].sliceId, reqs[i].id)
          && slices[i].requirementIds == [reqs[i].id] && slices[i].title == "Implement " + reqs[i].id
          && slices[i].ownedPaths == Owned(reqs[i]) && slices[i].filesLikelyTouched == Files(reqs[i], exploration)
          && slices[i].risk == ClassifyRisk(reqs[i].text) && slices[i].size == "small"
          && (gate != "" ==> gate in slices[i].acceptanceChecks))
    && (forall i, d | 0 <= i < |reqs| :: d in slices[i].dependsOn <==>
          exists j: nat :: j < |reqs| && PreviousInLane(reqs, i, j) && ScopesOverlap(Owned(reqs[j]), Owned(reqs[i]))
                           && slices[j].sliceId == d)
  }

  /** A planned task, field by field. */
  lemma {:induction false} PlannedFields(reqs: seq<Requirement>, exploration: Exploration, tasks: seq<Task>, i: nat)
    requires IsPruned(EnrichedTasks(TasksOf(reqs), exploration), tasks) && i < |reqs| == |tasks|
    ensures var r, t := reqs[i], tasks[i];
            && t.id == "task-" + Lower(r.id) && t.requirementIds == [r.id] && t.title == "Implement " + r.id
            && t.ownedPaths == Owned(r) && t.riskLevel == ClassifyRisk(r.text) && t.readOnlyPaths == []
            && (if t.filesLikelyTouched == [] then t.ownedPaths else t.filesLikelyTouched) == Files(r, exploration)
  {
    hide Lower, ClassifyRisk, InferEvidence, TasksOf, Kept, TaskMap, IsPruned;
    CompiledFields(reqs, i);
    PlannedTaskIs(TasksOf(reqs), exploration, tasks, i);
  }

  lemma {:induction false} PlannedTaskIs(compiled: seq<Task>, exploration: Exploration, tasks: seq<Task>, i: nat)
    requires IsPruned(EnrichedTasks(compiled, exploration), tasks) && i < |tasks|
    ensures i < |compiled| && tasks[i] == Enriched(compiled[i], exploration).(dependsOn := tasks[i].dependsOn)
  {
    hide Kept, TaskMap, Enriched;
    var enriched := EnrichedTasks(compiled, exploration);
    assert tasks[i] == enriched[i].(dependsOn := tasks[i].dependsOn);
  }

  /** Its dependencies: the previous task of its lane, if the two own overlapping paths. */
  lemma {:induction false} PlannedDependencies(reqs: seq<Requirement>, exploration: Exploration, tasks: seq<Task>,
                                               i: nat, d: Id)
    requires IsPruned(EnrichedTasks(TasksOf(reqs), exploration), tasks) && i < |reqs| == |tasks|
    requires UniqueIds(tasks) && forall a, b | 0 <= a < b < |reqs| :: reqs[a].id != reqs[b].id
    ensures d in tasks[i].dependsOn <==>
              exists j: nat :: j < |reqs| && PreviousInLane(reqs, i, j)
                               && ScopesOverlap(Owned(reqs[j]), Owned(reqs[i])) && tasks[j].id == d
  {
    hide IsPruned, Lane, TasksOf, ScopesOverlap, RealCoupling, PreviousInLane, UniqueIds, Enriched, Owned;
    var enriched := EnrichedTasks(TasksOf(reqs), exploration);
    PrunedMembers(enriched, tasks, i, d);
    EnrichedDependencies(reqs, exploration, i, d);
    forall j: nat | j < |reqs| ensures enriched[j].id == tasks[j].id { PrunedMembers(enriched, tasks, j, d); }
    forall j: nat | j < |reqs| && PreviousInLane(reqs, i, j)
      ensures RealCoupling(enriched[j], enriched[i]) <==> ScopesOverlap(Owned(reqs[j]), Owned(reqs[i]))
    {
      PreviousIsEarlier(reqs, i, j);
      CouplingIsOwned(reqs, exploration, i, j);
    }
    OneIdAmong(tasks, d);
  }

  lemma OneIdAmong(tasks: seq<Task>, d: Id)
    requires UniqueIds(tasks)
    ensures forall j, k | 0 <= j < |tasks| && 0 <= k < |tasks| && tasks[j].id == d && tasks[k].id == d :: j == k
  {
  }

  lemma PreviousIsEarlier(reqs: seq<Requirement>, i: nat, j: nat)
    requires PreviousInLane(reqs, i, j)
    ensures j < i
  {
  }

  lemma {:induction false} CouplingIsOwned(reqs: seq<Requirement>, exploration: Exploration, i: nat, j: nat)
    requires i < |reqs| && j < |reqs| && reqs[i].id != reqs[j].id
    ensures var enriched := EnrichedTasks(TasksOf(reqs), exploration);
            RealCoupling(enriched[j], enriched[i]) <==> ScopesOverlap(Owned(reqs[j]), Owned(reqs[i]))
  {
    hide TasksOf, Overlap, ScopesOverlap, ClassifyRisk, InferEvidence, Lower;
    CompiledFields(reqs, i);
    CompiledFields(reqs, j);
    NothingOverlapsNothing(Owned(reqs[j]));
  }

  lemma NothingOverlapsNothing(paths: seq<string>)
    ensures !ScopesOverlap(paths, [])
  {
  }

  lemma PrunedMembers(enriched: seq<Task>, tasks: seq<Task>, i: nat, d: Id)
    requires IsPruned(enriched, tasks) && UniqueIds(tasks) && i < |tasks|
    ensures tasks[i].id == enriched[i].id
    ensures d in tasks[i].dependsOn <==>
              d in enriched[i].dependsOn
              && forall j | 0 <= j < |tasks| && tasks[j].id == d :: RealCoupling(enriched[j], enriched[i])
  {
    hide RealCoupling, TaskMap, Kept, UniqueIds;
    SameIdsUnique(enriched, tasks);
    KeptMembers(TaskMap(enriched), enriched[i], enriched[i].dependsOn);
    TablesOfUnique(enriched);
    TableEntries(enriched);
  }

  lemma SameIdsUnique(enriched: seq<Task>, tasks: seq<Task>)
    requires IsPruned(enriched, tasks) && UniqueIds(tasks)
    ensures UniqueIds(enriched)
  {
    hide TaskMap, Kept;
    forall i, j | 0 <= i < j < |enriched| ensures enriched[i].id != enriched[j].id {
      assert tasks[i].id == enriched[i].id && tasks[j].id == enriched[j].id;
    }
  }

  lemma EnrichedDependencies(reqs: seq<Requirement>, exploration: Exploration, i: nat, d: Id)
    requires i < |reqs|
    ensures d in EnrichedTasks(TasksOf(reqs), exploration)[i].dependsOn <==>
              exists j: nat :: j < |reqs| && PreviousInLane(reqs, i, j)
                               && EnrichedTasks(TasksOf(reqs), exploration)[j].id == d
  {
    hide TasksOf, PreviousInLane, TaskIdOf, Lower;
    DependsOnPrevious(reqs, i, d);
    forall j: nat | PreviousInLane(reqs, i, j) ensures j < |reqs| { PreviousIsEarlier(reqs, i, j); }
    forall j: nat | j < |reqs| ensures TasksOf(reqs)[j].id == TaskIdOf(reqs[j].id) {
      CompiledFields(reqs, j);
      TaskIdIs(reqs[j].id);
    }
  }

  lemma TaskIdIs(id: string)
    ensures TaskIdOf(id) == "task-" + Lower(id)
  {
    hide Lower;
  }

  lemma UnprefixedOf(id: Id, short: string, whole: string)
    requires Unprefixed(id, short) && id == "task-" + whole
    ensures short == whole
  {
    assert id[5..] == whole;
    if id == "task-" + short { assert id[5..] == short; }
  }

  /** Slice and task name the same dependencies, when task IDs have their prefix. */
  lemma SameDependencies(task: Task, slice: Slice, d: string)
    requires |slice.dependsOn| == |task.dependsOn|
    requires forall k | 0 <= k < |task.dependsOn| :: Unprefixed(task.dependsOn[k], slice.dependsOn[k])
    requires forall e | e in task.dependsOn :: "task-" <= e
    ensures d in slice.dependsOn <==> "task-" + d in task.dependsOn
  {
    forall k | 0 <= k < |task.dependsOn| ensures task.dependsOn[k] == "task-" + slice.dependsOn[k] {
      assert task.dependsOn[k] in task.dependsOn;
    }
    if d in slice.dependsOn {
      var k :| 0 <= k < |slice.dependsOn| && slice.dependsOn[k] == d;
      assert task.dependsOn[k] == "task-" + d;
    }
    if "task-" + d in task.dependsOn {
      var k :| 0 <= k < |task.dependsOn| && task.dependsOn[k] == "task-" + d;
      UnprefixedOf(task.dependsOn[k], slice.dependsOn[k], d);
    }
  }

  lemma {:induction false} DraftSliceSays(reqs: seq<Requirement>, exploration: Exploration, gate: string,
                                          tasks: seq<Task>, waves: seq<Wave>, slices: seq<Slice>, i: nat)
    requires IsPruned(EnrichedTasks(TasksOf(reqs), exploration), tasks) && i < |reqs| == |tasks|
    requires Drafted(tasks, waves, gate, slices)
    ensures |slices| == |reqs|
    ensures var r, s := reqs[i], slices[i];
            && s.sliceId == Lower(r.id) && s.requirementIds == [r.id] && s.title == "Implement " + r.id
            && s.ownedPaths == Owned(r) && s.filesLikelyTouched == Files(r, exploration)
            && s.risk == ClassifyRisk(r.text) && s.size == "small" && (gate != "" ==> gate in s.acceptanceChecks)
  {
    hide Lower, ClassifyRisk, IsPruned, Drafted, Owned, Files, TasksOf, Unprefixed;
    SameLength(tasks, waves, gate, slices);
    PlannedFields(reqs, exploration, tasks, i);
    DraftedFields(tasks, waves, gate, slices, i);
    UnprefixedOf(tasks[i].id, slices[i].sliceId, Lower(reqs[i].id));
  }

  lemma SameLength(tasks: seq<Task>, waves: seq<Wave>, gate: string, slices: seq<Slice>)
    requires Drafted(tasks, waves, gate, slices)
    ensures |slices| == |tasks|
  {
  }

  lemma {:induction false} DraftSliceDependsOn(reqs: seq<Requirement>, exploration: Exploration, gate: string,
                                               tasks: seq<Task>, waves: seq<Wave>, slices: seq<Slice>, i: nat,
                                               d: string)
    requires IsPruned(EnrichedTasks(TasksOf(reqs), exploration), tasks) && i < |reqs| == |tasks|
    requires UniqueIds(tasks) && forall a, b | 0 <= a < b < |reqs| :: reqs[a].id != reqs[b].id
    requires Drafted(tasks, waves, gate, slices)
    ensures |slices| == |reqs|
    ensures d in slices[i].dependsOn <==>
              exists j: nat :: j < |reqs| && PreviousInLane(reqs, i, j) && ScopesOverlap(Owned(reqs[j]), Owned(reqs[i]))
                               && slices[j].sliceId == d
  {
    hide Lower, ClassifyRisk, IsPruned, Drafted, Owned, Files, TasksOf, PreviousInLane, ScopesOverlap, UniqueIds;
    SameLength(tasks, waves, gate, slices);
    forall j: nat | j < |reqs| ensures tasks[j].id == "task-" + slices[j].sliceId {
      PlannedFields(reqs, exploration, tasks, j);
      DraftSliceSays(reqs, exploration, gate, tasks, waves, slices, j);
    }
    forall e | e in tasks[i].dependsOn ensures "task-" <= e {
      PlannedDependencies(reqs, exploration, tasks, i, e);
    }
    DraftedFields(tasks, waves, gate, slices, i);
    SameDependencies(tasks[i], slices[i], d);
    PlannedDependencies(reqs, exploration, tasks, i, "task-" + d);
    SamePrefix(tasks, slices, d);
  }

  lemma SamePrefix(tasks: seq<Task>, slices: seq<Slice>, d: string)
    requires |slices| == |tasks| && forall j: nat | j < |tasks| :: tasks[j].id == "task-" + slices[j].sliceId
    ensures forall j: nat | j < |tasks| :: tasks[j].id == "task-" + d <==> slices[j].sliceId == d
  {
    forall j: nat | j < |tasks| ensures tasks[j].id == "task-" + d <==> slices[j].sliceId == d {
      assert tasks[j].id[5..] == slices[j].sliceId && ("task-" + d)[5..] == d;
    }
  }

  /** The whole way from requirements to slices, without the steps between: the slices stand for the requirements in
      some arrangement, and depend on each other as `DraftSays` tells. */
  lemma DraftMeans(requirements: seq<Requirement>, exploration: Exploration, gate: string, slices: seq<Slice>)
    returns (reqs: seq<Requirement>)
    requires requirements != [] && DistinctFolded(requirements) && forall r | r in requirements :: r.id != ""
    requires DraftOf(requirements, exploration, gate, slices)
    ensures Arranged(requirements, reqs) && DraftSays(reqs, exploration, gate, slices)
  {
    hide DistinctFolded, Arranged, IsPruned, TasksOf, Fit, Schedule, Computed, Titled, Drafted, ScopesOverlap, Owned;
    hide Files, PreviousInLane, ClassifyRisk, Lower, NoCapital, SameButCase;
    var tasks, compiled :| CompiledTo(requirements, compiled) && IsPruned(EnrichedTasks(compiled, exploration), tasks)
                           && IsDraft(tasks, gate, slices);
    reqs :| Arranged(requirements, reqs) && compiled == TasksOf(reqs);
    var waves, levels :| Schedule(tasks, waves) && Computed(tasks, waves) && Titled(tasks, waves, levels)
                         && Drafted(tasks, waves, gate, slices);
    DraftedTasksAreFit(requirements, exploration, tasks);
    FitIsUnique(tasks);
    PlannedLength(requirements, reqs, exploration, tasks);
    ArrangedApart(requirements, reqs);
    SameLength(tasks, waves, gate, slices);
    forall i: nat | i < |reqs|
      ensures var r, s := reqs[i], slices[i];
              && s.sliceId == Lower(r.id) && s.requirementIds == [r.id] && s.title == "Implement " + r.id
              && s.ownedPaths == Owned(r) && s.filesLikelyTouched == Files(r, exploration)
              && s.risk == ClassifyRisk(r.text) && s.size == "small" && (gate != "" ==> gate in s.acceptanceChecks)
              && NoCapital(Lower(r.id)) && SameButCase(Lower(r.id), r.id)
    {
      DraftSliceSays(reqs, exploration, gate, tasks, waves, slices, i);
      LoweredIs(reqs[i].id);
    }
    forall i: nat, d | i < |reqs|
      ensures d in slices[i].dependsOn <==>
                exists j: nat :: j < |reqs| && PreviousInLane(reqs, i, j)
                                 && ScopesOverlap(Owned(reqs[j]), Owned(reqs[i])) && slices[j].sliceId == d
    {
      DraftSliceDependsOn(reqs, exploration, gate, tasks, waves, slices, i, d);
    }
  }

  lemma LoweredIs(id: string)
    ensures NoCapital(Lower(id)) && SameButCase(Lower(id), id)
  {
    LowerCase(id);
    FoldedIdIs(id);
  }

  lemma FitIsUnique(tasks: seq<Task>)
    requires Fit(tasks)
    ensures UniqueIds(tasks)
  {
  }

  lemma ArrangedApart(requirements: seq<Requirement>, reqs: seq<Requirement>)
    requires Arranged(requirements, reqs) && DistinctFolded(requirements)
    ensures forall a, b | 0 <= a < b < |reqs| :: reqs[a].id != reqs[b].id
  {
    hide Arranged, Orderable;
    ArrangementKeepsDistinct(requirements, reqs);
    FoldedDistinct(reqs);
  }

  /** And nothing of it is lost when the slices are compiled: every dependency between the tasks of a draft is one
      between the tasks compiled from it. */
  lemma DraftKeepsEdges(tasks: seq<Task>, gate: string, slices: seq<Slice>, compiled: seq<Task>, a: Id, b: Id)
    requires Fit(tasks) && IsDraft(tasks, gate, slices) && CompiledFrom(slices, compiled)
    requires Edge(GraphOf(tasks), a, b)
    ensures exists i :: 0 <= i < |compiled| && compiled[i].id == a && b in compiled[i].dependsOn
  {
    var waves := WavesOfDraft(tasks, gate, slices);
    hide Schedule, Computed, Titled, Drafted, CompiledFrom, CompiledDep, WaveIndex, Lower, FoldedId, IsDraft, Fit;
    hide Unprefixed;
    TableEntries(tasks);
    var i := Order(tasks)[a];
    SameLength(tasks, waves, gate, slices);
    FitDependency(tasks, i, b);
    DraftedFields(tasks, waves, gate, slices, i);
    hide TaskMap, Order;
    var k :| 0 <= k < |tasks[i].dependsOn| && tasks[i].dependsOn[k] == b;
    PrefixedBack(tasks[i].id, slices[i].sliceId);
    PrefixedBack(b, slices[i].dependsOn[k]);
    CompiledKeeps(slices, compiled, i, slices[i].dependsOn[k]);
  }

  lemma WavesOfDraft(tasks: seq<Task>, gate: string, slices: seq<Slice>) returns (waves: seq<Wave>)
    requires IsDraft(tasks, gate, slices)
    ensures Drafted(tasks, waves, gate, slices)
  {
    hide Schedule, Computed, Titled, Drafted;
    var levels;
    waves, levels :| Schedule(tasks, waves) && Computed(tasks, waves) && Titled(tasks, waves, levels)
                     && Drafted(tasks, waves, gate, slices);
  }

  lemma FitDependency(tasks: seq<Task>, i: nat, b: Id)
    requires Fit(tasks) && i < |tasks| && b in tasks[i].dependsOn
    ensures FoldedId(tasks[i].id) && FoldedId(b)
  {
    hide FoldedId, FieldsReady;
    var j :| 0 <= j < i && tasks[j].id == b;
  }

  lemma PrefixedBack(id: Id, short: string)
    requires FoldedId(id) && Unprefixed(id, short)
    ensures TaskIdFromSliceId(short) == id
  {
    assert id == "task-" + id[5..];
    UnprefixedOf(id, short, id[5..]);
  }

  lemma CompiledKeeps(slices: seq<Slice>, compiled: seq<Task>, i: nat, d: string)
    requires CompiledFrom(slices, compiled) && i < |slices| && d in slices[i].dependsOn
    ensures i < |compiled| && compiled[i].id == TaskIdFromSliceId(slices[i].sliceId)
    ensures TaskIdFromSliceId(d) in compiled[i].dependsOn
  {
    hide TaskIdFromSliceId, WaveIndex;
    assert CompiledDep(slices, i, TaskIdFromSliceId(d));
  }

  // ----- the waves of a draft -----

  /** The wave of task `i`, and the name its slice carries. */
  lemma WaveOfSlice(tasks: seq<Task>, waves: seq<Wave>, levels: seq<nat>, gate: string, slices: seq<Slice>, i: nat)
    returns (k: nat)
    requires Fit(tasks) && Schedule(tasks, waves) && Titled(tasks, waves, levels) && Drafted(tasks, waves, gate, slices)
    requires i < |tasks|
    ensures k < |waves| <= |tasks| && tasks[i].id in waves[k].tasks && slices[i].waveId == WaveName(k)
  {
    ChainedIsSchedulable(tasks);
    ClosedIsContiguous(tasks);
    NamesMatchIffContiguous(tasks, waves, levels);
    WavesAreFew(tasks, waves);
    hide Titled, Fit;
    k :| 0 <= k < |waves| && tasks[i].id in waves[k].tasks;
  }

  lemma OrderIsSmall(tasks: seq<Task>)
    ensures |Order(tasks).Keys| <= |tasks|
  {
    TableEntries(tasks);
    TaskMapSize(tasks);
    assert |TaskMap(tasks).Keys| == |TaskMap(tasks)|;
  }

  /** No wave is empty, so there are no more waves than tasks. */
  lemma WavesAreFew(tasks: seq<Task>, waves: seq<Wave>)
    requires Schedule(tasks, waves)
    ensures |waves| <= |tasks|
  {
    var firsts := seq(|waves|, k requires 0 <= k < |waves| => waves[k].tasks[0]);
    OrderIsSmall(tasks);
    forall j, k | 0 <= j < k < |firsts| ensures firsts[j] != firsts[k] {
      assert waves[j].tasks[0] in waves[j].tasks && waves[k].tasks[0] in waves[k].tasks;
    }
    if |waves| > |tasks| {
      forall k | 0 <= k < |firsts| ensures firsts[k] in Order(tasks).Keys {
        assert InOrder(waves[k].tasks, Order(tasks));
      }
      Pigeonhole(firsts, Order(tasks).Keys);
      assert false;
    }
  }

  /** Dependency `d` of slice `i` is slice `j`, in a strictly earlier wave. */
  lemma DepOfSlice(tasks: seq<Task>, waves: seq<Wave>, levels: seq<nat>, gate: string, slices: seq<Slice>, i: nat,
                   d: string)
    returns (j: nat, ki: nat, kj: nat)
    requires Fit(tasks) && Schedule(tasks, waves) && Titled(tasks, waves, levels) && Drafted(tasks, waves, gate, slices)
    requires i < |slices| && d in slices[i].dependsOn
    ensures j < |slices| && slices[j].sliceId == d && TaskIdFromSliceId(d) == tasks[j].id
    ensures kj < ki < |waves| <= |tasks|
    ensures slices[i].waveId == WaveName(ki) && slices[j].waveId == WaveName(kj)
  {
    hide Schedule, Titled, FoldedId, FieldsReady, SliceIdFromTaskId, WaveName;
    var e :| 0 <= e < |slices[i].dependsOn| && slices[i].dependsOn[e] == d;
    var t := tasks[i].dependsOn[e];
    assert t in tasks[i].dependsOn && SliceIdFromTaskId(t) == d;
    j :| 0 <= j < i && tasks[j].id == t;
    FoldedRoundTrip(t);
    ki := WaveOfSlice(tasks, waves, levels, gate, slices, i);
    kj := WaveOfSlice(tasks, waves, levels, gate, slices, j);
    EarlierWave(tasks, waves, i, j, ki, kj);
  }

  lemma EarlierWave(tasks: seq<Task>, waves: seq<Wave>, i: nat, j: nat, ki: nat, kj: nat)
    requires Schedule(tasks, waves) && UniqueIds(tasks) && i < |tasks| && j < |tasks|
    requires tasks[j].id in tasks[i].dependsOn
    requires ki < |waves| && kj < |waves| && tasks[i].id in waves[ki].tasks && tasks[j].id in waves[kj].tasks
    ensures kj < ki
  {
    TablesOfUnique(tasks);
    assert Edge(GraphOf(tasks), tasks[i].id, tasks[j].id);
  }

  /** Slices of one wave have disjoint scopes. */
  lemma SameWaveApart(tasks: seq<Task>, waves: seq<Wave>, levels: seq<nat>, gate: string, slices: seq<Slice>, i: nat,
                      j: nat)
    requires Fit(tasks) && Schedule(tasks, waves) && Titled(tasks, waves, levels) && Drafted(tasks, waves, gate, slices)
    requires i < j < |slices| && slices[i].waveId == slices[j].waveId
    ensures !ScopesOverlap(slices[i].Scope(), slices[j].Scope())
  {
    var ki := WaveOfSlice(tasks, waves, levels, gate, slices, i);
    var kj := WaveOfSlice(tasks, waves, levels, gate, slices, j);
    WaveNameInjective(ki, kj);
    SliceScope(tasks[i], slices[i].waveId, gate);
    SliceScope(tasks[j], slices[j].waveId, gate);
    ChainedIsUnique(tasks);
    TablesOfUnique(tasks);
    hide Titled, Fit, ScopesOverlap, SliceOf, WaveName;
    assert !Rival(TaskMap(tasks), tasks[i].id, tasks[j].id);
  }

  lemma SliceScope(task: Task, waveId: string, gate: string)
    ensures SliceOf(task, waveId, gate).Scope() == task.Scope()
  {
  }

  lemma DistinctTaskIds(tasks: seq<Task>, waves: seq<Wave>, gate: string, slices: seq<Slice>)
    requires Fit(tasks) && Drafted(tasks, waves, gate, slices)
    ensures |slices| == |tasks| && UniqueIds(tasks)
    ensures forall i | 0 <= i < |slices| :: TaskIdFromSliceId(slices[i].sliceId) == tasks[i].id
                                            && Lower(slices[i].sliceId) == slices[i].sliceId != ""
    ensures DistinctSlices(slices)
  {
    forall i | 0 <= i < |slices| ensures TaskIdFromSliceId(slices[i].sliceId) == tasks[i].id
                                         && Lower(slices[i].sliceId) == slices[i].sliceId != "" {
      FoldedRoundTrip(tasks[i].id);
    }
    hide Lower, FieldsReady;
  }

  // ----- the draft passes its review -----

  lemma SliceFieldsComplete(task: Task, waveId: string, gate: string)
    requires FoldedId(task.id) && FieldsReady(task)
    ensures FieldsComplete(SliceOf(task, waveId, gate))
  {
    FoldedRoundTrip(task.id);
  }

  lemma DraftIsAcyclic(tasks: seq<Task>, waves: seq<Wave>, levels: seq<nat>, gate: string, slices: seq<Slice>)
    requires Fit(tasks) && Schedule(tasks, waves) && Titled(tasks, waves, levels) && Drafted(tasks, waves, gate, slices)
    ensures Acyclic(SliceGraph(slices))
  {
    DistinctTaskIds(tasks, waves, gate, slices);
    SliceGraphEdges(slices);
    var order := Order(tasks);
    var rank: Id -> int := id => if TaskIdFromSliceId(id) in order then order[TaskIdFromSliceId(id)] + 1 else 0;
    ChainedIsUnique(tasks);
    TablesOfUnique(tasks);
    hide Schedule, Titled, TaskIdFromSliceId, Lower;
    forall a, b | Edge(SliceGraph(slices), a, b) ensures rank(a) > rank(b) {
      var i :| 0 <= i < |slices| && slices[i].sliceId == a && b in slices[i].dependsOn;
      DepIsEarlierTask(tasks, waves, gate, slices, i, b);
    }
    RankedAcyclic(SliceGraph(slices), rank);
  }

  lemma DepIsEarlierTask(tasks: seq<Task>, waves: seq<Wave>, gate: string, slices: seq<Slice>, i: nat, b: string)
    requires Fit(tasks) && Drafted(tasks, waves, gate, slices) && i < |slices| && b in slices[i].dependsOn
    ensures exists j :: 0 <= j < i && tasks[j].id == TaskIdFromSliceId(b)
  {
    hide FieldsReady;
    var e :| 0 <= e < |slices[i].dependsOn| && slices[i].dependsOn[e] == b;
    var t := tasks[i].dependsOn[e];
    assert t in tasks[i].dependsOn;
    var j :| 0 <= j < i && tasks[j].id == t;
    FoldedRoundTrip(t);
  }

  /** A draft of fit tasks is in good order. */
  lemma DraftInGoodOrder(tasks: seq<Task>, gate: string, slices: seq<Slice>, ids: seq<string>)
    requires Fit(tasks) && IsDraft(tasks, gate, slices)
    requires forall r | r in ids :: exists i :: 0 <= i < |tasks| && r in tasks[i].requirementIds
    ensures InGoodOrder(slices, ids)
  {
    hide Fit, Schedule, Titled, Computed, Drafted, SameWaveConflict, FieldsComplete, GoodDeps, DistinctSlices, Acyclic;
    hide Covered;
    hide TaskIdFromSliceId, Lower;
    var waves, levels :| Schedule(tasks, waves) && Computed(tasks, waves) && Titled(tasks, waves, levels)
                         && Drafted(tasks, waves, gate, slices);
    DraftIsAcyclic(tasks, waves, levels, gate, slices);
    DistinctTaskIds(tasks, waves, gate, slices);
    DraftFieldsComplete(tasks, waves, gate, slices);
    DraftCovers(tasks, waves, gate, slices, ids);
    forall i | 0 <= i < |slices| ensures GoodDeps(slices, i) {
      DraftDepsAreGood(tasks, waves, levels, gate, slices, i);
    }
    forall i, j | 0 <= i < j < |slices| ensures !SameWaveConflict(slices, i, j) {
      DraftHasNoConflict(tasks, waves, levels, gate, slices, i, j);
    }
  }

  lemma DraftFieldsComplete(tasks: seq<Task>, waves: seq<Wave>, gate: string, slices: seq<Slice>)
    requires Fit(tasks) && Drafted(tasks, waves, gate, slices)
    ensures slices != [] && forall i | 0 <= i < |slices| :: FieldsComplete(slices[i])
  {
    hide FieldsComplete, FoldedId, FieldsReady;
    forall i | 0 <= i < |slices| ensures FieldsComplete(slices[i]) {
      SliceFieldsComplete(tasks[i], slices[i].waveId, gate);
    }
  }

  lemma DraftCovers(tasks: seq<Task>, waves: seq<Wave>, gate: string, slices: seq<Slice>, ids: seq<string>)
    requires Drafted(tasks, waves, gate, slices)
    requires forall r | r in ids :: exists i :: 0 <= i < |tasks| && r in tasks[i].requirementIds
    ensures forall r | r in ids :: Covered(slices, r)
  {
    forall r | r in ids ensures Covered(slices, r) {
      var i :| 0 <= i < |tasks| && r in tasks[i].requirementIds;
      assert slices[i].requirementIds == tasks[i].requirementIds;
    }
  }

  lemma DraftHasNoConflict(tasks: seq<Task>, waves: seq<Wave>, levels: seq<nat>, gate: string, slices: seq<Slice>,
                           i: nat, j: nat)
    requires Fit(tasks) && Schedule(tasks, waves) && Titled(tasks, waves, levels) && Drafted(tasks, waves, gate, slices)
    requires i < j < |slices|
    ensures !SameWaveConflict(slices, i, j)
  {
    hide Fit, Schedule, Titled, Drafted, ScopesOverlap;
    if slices[i].waveId == slices[j].waveId {
      SameWaveApart(tasks, waves, levels, gate, slices, i, j);
    }
  }

  lemma DraftDepsAreGood(tasks: seq<Task>, waves: seq<Wave>, levels: seq<nat>, gate: string, slices: seq<Slice>, i: nat)
    requires Fit(tasks) && Schedule(tasks, waves) && Titled(tasks, waves, levels) && Drafted(tasks, waves, gate, slices)
    requires i < |slices|
    ensures GoodDeps(slices, i)
  {
    hide Fit, Schedule, Titled, Drafted, WaveName;
    forall d | d in slices[i].dependsOn ensures GoodDep(slices, i, d) {
      var j, ki, kj := DepOfSlice(tasks, waves, levels, gate, slices, i, d);
      if WaveName(ki) == WaveName(kj) { WaveNameInjective(ki, kj); }
    }
  }

  /** Every freshly drafted plan passes its own review, whatever exploration says, when the requirement IDs are not
      empty and differ even in lower case. */
  lemma DraftPassesReview(requirements: seq<Requirement>, exploration: Exploration, gate: string, slices: seq<Slice>,
                          findings: seq<Finding>)
    requires requirements != [] && DistinctFolded(requirements) && forall r | r in requirements :: r.id != ""
    requires DraftOf(requirements, exploration, gate, slices)
    requires AreFindings(slices, Some(RequirementIds(requirements)), findings)
    ensures findings == []
  {
    hide IsPlanned, IsDraft, Fit, AreFindings, InGoodOrder;
    var tasks: seq<Task> :| IsPlanned(requirements, exploration, tasks) && IsDraft(tasks, gate, slices);
    DraftedTasksAreFit(requirements, exploration, tasks);
    var ids := RequirementIds(requirements);
    forall r | r in ids ensures exists i :: 0 <= i < |tasks| && r in tasks[i].requirementIds {
      var k :| 0 <= k < |ids| && ids[k] == r;
      assert requirements[k] in requirements;
    }
    DraftInGoodOrder(tasks, gate, slices, ids);
    NoFindingsIff(slices, Some(ids), findings);
  }

  function RequirementIds(requirements: seq<Requirement>): (r: seq<string>)
    ensures |r| == |requirements| && forall i | 0 <= i < |r| :: r[i] == requirements[i].id
  {
    seq(|requirements|, i requires 0 <= i < |requirements| => requirements[i].id)
  }

  // ----- the draft runs safely -----

  lemma WaveNumberOfSlice(slices: seq<Slice>, i: nat, k: nat, n: nat)
    requires i < |slices| && slices[i].waveId == WaveName(k) && k < n <= MAX_INT64
    ensures WaveIndex(slices[i].waveId) == Some(k)
  {
    WaveIndexOfName(k);
  }

  /** A wave is not empty, so some slice carries its name. */
  lemma SliceOfWave(tasks: seq<Task>, waves: seq<Wave>, levels: seq<nat>, gate: string, slices: seq<Slice>, k: nat)
    returns (j: nat)
    requires Fit(tasks) && Schedule(tasks, waves) && Titled(tasks, waves, levels) && Drafted(tasks, waves, gate, slices)
    requires k < |waves|
    ensures j < |slices| && slices[j].waveId == WaveName(k)
  {
    var id := waves[k].tasks[0];
    assert id in waves[k].tasks && InOrder(waves[k].tasks, Order(tasks));
    TableEntries(tasks);
    j := Order(tasks)[id];
    var kj := WaveOfSlice(tasks, waves, levels, gate, slices, j);
    WavesAreDisjoint(tasks, waves);
    assert kj == k;
  }

  /** The wave numbers of a draft have no gap, and its dependencies name slices of strictly earlier waves. */
  lemma DraftIsNumbered(tasks: seq<Task>, gate: string, slices: seq<Slice>)
    requires Fit(tasks) && IsDraft(tasks, gate, slices) && |tasks| <= MAX_INT64
    ensures Numbered(slices) && AllEarlier(slices)
  {
    hide Fit, Schedule, Titled, Computed, Drafted, WaveName, WaveIndex, TaskIdFromSliceId, Lower, DistinctSlices;
    var waves, levels :| Schedule(tasks, waves) && Computed(tasks, waves) && Titled(tasks, waves, levels)
                         && Drafted(tasks, waves, gate, slices);
    DistinctTaskIds(tasks, waves, gate, slices);
    forall i: nat | i < |slices|
      ensures InWave(slices, i)
      ensures WaveAt(slices, i) > 0 ==> exists j: nat :: InWave(slices, j) && WaveAt(slices, j) == WaveAt(slices, i) - 1
    {
      var k := WaveOfSlice(tasks, waves, levels, gate, slices, i);
      WaveNumberOfSlice(slices, i, k, |waves|);
      if k > 0 {
        var j := SliceOfWave(tasks, waves, levels, gate, slices, k - 1);
        WaveNumberOfSlice(slices, j, k - 1, |waves|);
        assert InWave(slices, j);
      }
    }
    forall i, d | 0 <= i < |slices| && d in slices[i].dependsOn
      ensures exists j :: Names(slices, d, j) && WaveAt(slices, j) < WaveAt(slices, i)
    {
      var j, ki, kj := DepOfSlice(tasks, waves, levels, gate, slices, i, d);
      WaveNumberOfSlice(slices, i, ki, |waves|);
      WaveNumberOfSlice(slices, j, kj, |waves|);
      assert Names(slices, d, j);
    }
  }

  lemma DraftWavesAreConflictFree(tasks: seq<Task>, gate: string, slices: seq<Slice>)
    requires Fit(tasks) && IsDraft(tasks, gate, slices) && Numbered(slices) && |tasks| <= MAX_INT64
    ensures WavesConflictFree(slices)
  {
    hide Fit, Schedule, Titled, Computed, Drafted, WaveName, WaveIndex, ScopesOverlap, Lower, DistinctSlices;
    hide TaskIdFromSliceId;
    var waves, levels :| Schedule(tasks, waves) && Computed(tasks, waves) && Titled(tasks, waves, levels)
                         && Drafted(tasks, waves, gate, slices);
    DraftFieldsComplete(tasks, waves, gate, slices);
    DistinctTaskIds(tasks, waves, gate, slices);
    forall i | 0 <= i < |slices| ensures slices[i].ownedPaths != [] {
      assert FieldsComplete(slices[i]);
    }
    forall i, j | 0 <= i < j < |slices| && WaveAt(slices, i) == WaveAt(slices, j)
      ensures !ScopesOverlap(slices[i].Scope(), slices[j].Scope())
    {
      var ki := WaveOfSlice(tasks, waves, levels, gate, slices, i);
      var kj := WaveOfSlice(tasks, waves, levels, gate, slices, j);
      WaveNumberOfSlice(slices, i, ki, |waves|);
      WaveNumberOfSlice(slices, j, kj, |waves|);
      SameWaveApart(tasks, waves, levels, gate, slices, i, j);
    }
  }

  /** What makes a compiled plan safe to run. */
  ghost predicate SafePlan(slices: seq<Slice>) {
    Numbered(slices) && AllEarlier(slices) && WavesConflictFree(slices)
  }

  lemma DraftIsSafe(requirements: seq<Requirement>, exploration: Exploration, gate: string, slices: seq<Slice>)
    requires requirements != [] && DistinctFolded(requirements) && forall r | r in requirements :: r.id != ""
    requires DraftOf(requirements, exploration, gate, slices) && |requirements| <= MAX_INT64
    ensures SafePlan(slices)
  {
    hide IsPlanned, IsDraft, Fit, Numbered, AllEarlier, WavesConflictFree;
    var tasks: seq<Task> :| IsPlanned(requirements, exploration, tasks) && IsDraft(tasks, gate, slices);
    DraftedTasksAreFit(requirements, exploration, tasks);
    DraftIsNumbered(tasks, gate, slices);
    DraftWavesAreConflictFree(tasks, gate, slices);
  }

  /** From requirements to a run, end to end: of a drafted and compiled plan, no two tasks that are in flight at the
      same time ever touch overlapping files. */
  lemma DraftedTasksNeverClash(requirements: seq<Requirement>, exploration: Exploration, gate: string,
                               slices: seq<Slice>,
                               tasks: seq<Task>, run: Id, m: Machine, actions: seq<Action>, i: nat, j: nat)
    requires requirements != [] && DistinctFolded(requirements) && forall r | r in requirements :: r.id != ""
    requires DraftOf(requirements, exploration, gate, slices) && |requirements| <= MAX_INT64
    requires CompiledFrom(slices, tasks) && Initial(tasks, run, m) && DisciplinedRun(m, run, actions)
    requires i < |tasks| && j < |tasks| && i != j
    ensures var files := After(m, run, actions).files;
            InFlight(files, tasks[i].id) && InFlight(files, tasks[j].id) ==> !Clash(tasks[i], tasks[j])
  {
    hide Numbered, AllEarlier, WavesConflictFree, CompiledFrom, Initial, DisciplinedRun, After, Clash, InFlight;
    hide DistinctFolded, DraftOf;
    DraftIsSafe(requirements, exploration, gate, slices);
    NoClashInFlight(slices, tasks, run, m, actions, i, j);
  }

  /** And it can be finished: from any state of a disciplined run some further run brings every task to done, exactly
      when none has failed. */
  lemma DraftedPlanFinishes(requirements: seq<Requirement>, exploration: Exploration, gate: string, slices: seq<Slice>,
                            tasks: seq<Task>, run: Id, m: Machine, before: seq<Action>)
    requires requirements != [] && DistinctFolded(requirements) && forall r | r in requirements :: r.id != ""
    requires DraftOf(requirements, exploration, gate, slices) && |requirements| <= MAX_INT64
    requires CompiledFrom(slices, tasks) && Initial(tasks, run, m) && DisciplinedRun(m, run, before)
    ensures CanFinishAll(GraphOf(tasks), After(m, run, before), run) <==>
              forall x | x in GraphOf(tasks) :: !HasFailed(After(m, run, before).files, x)
    ensures before == [] ==> CanFinishAll(GraphOf(tasks), After(m, run, before), run)
  {
    hide SafePlan, CompiledFrom, Initial, CanFinishAll, DraftOf, DistinctFolded, GraphOf, DisciplinedRun, After;
    hide HasFailed;
    DraftIsSafe(requirements, exploration, gate, slices);
    SafePlanFinishes(slices, tasks, run, m, before);
  }

  lemma SafePlanFinishes(slices: seq<Slice>, tasks: seq<Task>, run: Id, m: Machine, before: seq<Action>)
    requires SafePlan(slices) && CompiledFrom(slices, tasks) && Initial(tasks, run, m) && DisciplinedRun(m, run, before)
    ensures CanFinishAll(GraphOf(tasks), After(m, run, before), run) <==>
              forall x | x in GraphOf(tasks) :: !HasFailed(After(m, run, before).files, x)
    ensures before == [] ==> CanFinishAll(GraphOf(tasks), After(m, run, before), run)
  {
    hide Gapless, AllEarlier, WavesConflictFree, CompiledFrom, GraphOf, Linked, Initial, CanFinishAll, Reaches, InWave;
    hide DisciplinedRun, After, HasFailed, Acyclic;
    CompiledTables(slices, tasks);
    EarlierIsAcyclic(slices, tasks);
    CompiledIsClosed(slices, tasks);
    FinishAllFromIff(tasks, run, m, before);
    EmptyRun(m, run);
    FinishAllIff(tasks, run, m);
  }

  /** And it never starves: as long as a task is not done and all such tasks wait to be dispatched, a poll offers
      one. */
  lemma DraftedPlanNeverStarves(requirements: seq<Requirement>, exploration: Exploration, gate: string,
                                slices: seq<Slice>,
                                tasks: seq<Task>, run: Id, files: Files, unfinished: Id)
    requires requirements != [] && DistinctFolded(requirements) && forall r | r in requirements :: r.id != ""
    requires DraftOf(requirements, exploration, gate, slices) && |requirements| <= MAX_INT64
    requires CompiledFrom(slices, tasks)
    requires forall id | id in GraphOf(tasks) ::
               id in files && files[id].fm.parent == run && files[id].fm.deps == GraphOf(tasks)[id]
    requires forall id | id in GraphOf(tasks) && !IsDone(files, id) :: T.IsDispatchable(files[id].fm.TaskStatus())
    requires unfinished in GraphOf(tasks) && !IsDone(files, unfinished)
    ensures exists id :: id in GraphOf(tasks) && Ready(files, run, id)
  {
    DraftIsSafe(requirements, exploration, gate, slices);
    CompiledTables(slices, tasks);
    hide Numbered, AllEarlier, CompiledFrom, GraphOf;
    EarlierIsAcyclic(slices, tasks);
    CompiledIsClosed(slices, tasks);
    SomethingIsReady(tasks, files, run, unfinished);
  }
}

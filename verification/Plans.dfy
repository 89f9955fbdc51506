/** Execution plans: tasks and waves written out as slices, and slices turned back into tasks whose
    dependencies enforce the waves. */
module Plans {
  import opened Strings
  import opened Graphs
  import opened Tasks
  import opened WaveLayout
  import opened WaveNames
  import opened Requirements
  import opened Compile

  datatype Slice = Slice(
    sliceId: string,
    title: string,
    goal: string,
    requirementIds: seq<string>,
    dependsOn: seq<string>,
    waveId: string,
    filesLikelyTouched: seq<string>,
    ownedPaths: seq<string>,
    acceptanceChecks: seq<string>,
    risk: string,
    size: string)
  {
    /** `conflictPathsForSlice`. */
    function Scope(): seq<string> {
      if |filesLikelyTouched| > 0 then filesLikelyTouched else ownedPaths
    }
  }

  // ----- DraftExecutionPlan -----

  const TASK_PREFIX := "task-"

  function SliceIdFromTaskId(taskId: Id): string {
    if TASK_PREFIX <= taskId then taskId[5..] else taskId
  }

  function TaskIdFromSliceId(sliceId: string): Id {
    TASK_PREFIX + Lower(sliceId)
  }

  function SliceIds(taskIds: seq<Id>): (r: seq<string>)
    ensures |r| == |taskIds| && forall i | 0 <= i < |r| :: r[i] == SliceIdFromTaskId(taskIds[i])
  {
    seq(|taskIds|, i requires 0 <= i < |taskIds| => SliceIdFromTaskId(taskIds[i]))
  }

  function TaskIds(sliceIds: seq<string>): (r: seq<Id>)
    ensures |r| == |sliceIds| && forall i | 0 <= i < |r| :: r[i] == TaskIdFromSliceId(sliceIds[i])
  {
    seq(|sliceIds|, i requires 0 <= i < |sliceIds| => TaskIdFromSliceId(sliceIds[i]))
  }

  function JoinComma(items: seq<string>): string {
    if items == [] then "" else if |items| == 1 then items[0] else items[0] + ", " + JoinComma(items[1..])
  }

  function GoalFromTask(task: Task): string {
    if task.requirementIds == [] then task.title
    else "Deliver the implementation slice covering " + JoinComma(task.requirementIds) + "."
  }

  /** `gate` is the quality gate's command, blank when there is none. */
  function AcceptanceChecks(gate: string, task: Task): seq<string> {
    (if gate != "" then [gate] else [])
    + (if task.requiredEvidence != [] then ["fabrikk verify <run-id> <task-id>"] else [])
  }

  function SliceSize(requirementIds: seq<string>): string {
    if |requirementIds| <= 1 then "small" else if |requirementIds| <= 3 then "medium" else "large"
  }

  function SliceOf(task: Task, waveId: string, gate: string): Slice {
    Slice(SliceIdFromTaskId(task.id), task.title, GoalFromTask(task), task.requirementIds, SliceIds(task.dependsOn),
          waveId, task.Scope(), task.ownedPaths, AcceptanceChecks(gate, task), task.riskLevel,
          SliceSize(task.requirementIds))
  }

  /** The slices follow the tasks, each in the wave the schedule gives its task. */
  ghost predicate Drafted(tasks: seq<Task>, waves: seq<Wave>, gate: string, slices: seq<Slice>) {
    && |slices| == |tasks|
    && (forall i | 0 <= i < |tasks| :: slices[i] == SliceOf(tasks[i], slices[i].waveId, gate))
    && (forall i, k {:trigger tasks[i].id in waves[k].tasks} |
          0 <= i < |tasks| && 0 <= k < |waves| && tasks[i].id in waves[k].tasks :: slices[i].waveId == waves[k].waveId)
  }

  lemma {:induction false} JoinCommaNext(items: seq<string>, last: string)
    requires items != []
    ensures JoinComma(items + [last]) == JoinComma(items) + ", " + last
    ensures JoinComma([]) == "" && JoinComma([last]) == last
  {
    assert (items + [last])[1..] == items[1..] + [last];
    if |items| > 1 { JoinCommaNext(items[1..], last); }
  }

  /** `short` is `id` without the prefix of task IDs, if it has it. */
  ghost predicate Unprefixed(id: Id, short: string) {
    id == "task-" + short || (id == short && !("task-" <= id))
  }

  /** Slice by slice, field by field, what a draft takes over from its tasks. */
  lemma DraftedFields(tasks: seq<Task>, waves: seq<Wave>, gate: string, slices: seq<Slice>, i: nat)
    requires Drafted(tasks, waves, gate, slices) && i < |tasks|
    ensures var t, s := tasks[i], slices[i];
            && Unprefixed(t.id, s.sliceId) && s.title == t.title && s.requirementIds == t.requirementIds
            && s.ownedPaths == t.ownedPaths && s.risk == t.riskLevel
            && s.filesLikelyTouched == (if t.filesLikelyTouched != [] then t.filesLikelyTouched else t.ownedPaths)
            && |s.dependsOn| == |t.dependsOn|
            && (forall k | 0 <= k < |t.dependsOn| :: Unprefixed(t.dependsOn[k], s.dependsOn[k]))
    ensures var t, s := tasks[i], slices[i];
            && s.size == (if |t.requirementIds| >= 4 then "large"
                          else if |t.requirementIds| >= 2 then "medium" else "small")
            && s.goal == (if |t.requirementIds| == 0 then t.title
                          else "Deliver the implementation slice covering " + JoinComma(t.requirementIds) + ".")
            && (forall c :: c in s.acceptanceChecks <==>
                  (c == gate && gate != "") || (c == "fabrikk verify <run-id> <task-id>" && |t.requiredEvidence| > 0))
            && (gate != "" ==> s.acceptanceChecks[0] == gate)
  {
    assert slices[i] == SliceOf(tasks[i], slices[i].waveId, gate);
    hide Drafted, JoinComma;
    UnprefixedIs(tasks[i].id);
    forall k | 0 <= k < |tasks[i].dependsOn| ensures Unprefixed(tasks[i].dependsOn[k], slices[i].dependsOn[k]) {
      UnprefixedIs(tasks[i].dependsOn[k]);
    }
  }

  lemma UnprefixedIs(id: Id)
    ensures Unprefixed(id, SliceIdFromTaskId(id))
  {
    if TASK_PREFIX <= id { assert id == id[..5] + id[5..]; }
  }

  /** The wave-name table of a draft. */
  method WaveIdsByTask(waves: seq<Wave>) returns (waveByTaskId: map<Id, string>)
    requires forall j, k, id | 0 <= j < k < |waves| && id in waves[j].tasks :: id !in waves[k].tasks
    ensures forall k, id {:trigger id in waves[k].tasks} | 0 <= k < |waves| && id in waves[k].tasks ::
              id in waveByTaskId && waveByTaskId[id] == waves[k].waveId
  {
    waveByTaskId := map[];
    for k := 0 to |waves|
      invariant forall j, id {:trigger id in waves[j].tasks} | 0 <= j < k && id in waves[j].tasks ::
                  id in waveByTaskId && waveByTaskId[id] == waves[j].waveId
    {
      var ids := waves[k].tasks;
      ghost var before := waveByTaskId;
      for i := 0 to |ids|
        invariant forall id | id in ids[..i] :: id in waveByTaskId && waveByTaskId[id] == waves[k].waveId
        invariant forall id | id !in ids :: (id in waveByTaskId <==> id in before)
                                            && (id in before ==> waveByTaskId[id] == before[id])
      {
        assert ids[..i + 1] == ids[..i] + [ids[i]];
        waveByTaskId := waveByTaskId[ids[i] := waves[k].waveId];
      }
      assert ids[..|ids|] == ids;
    }
  }

  /** The slices of `DraftExecutionPlan`. */
  method DraftSlices(tasks: seq<Task>, waves: seq<Wave>, gate: string) returns (slices: seq<Slice>)
    requires forall j, k, id | 0 <= j < k < |waves| && id in waves[j].tasks :: id !in waves[k].tasks
    ensures Drafted(tasks, waves, gate, slices)
  {
    var waveByTaskId := WaveIdsByTask(waves);
    slices := [];
    for i := 0 to |tasks|
      invariant |slices| == i
      invariant forall j | 0 <= j < i :: slices[j] ==
                  SliceOf(tasks[j], if tasks[j].id in waveByTaskId then waveByTaskId[tasks[j].id] else "", gate)
    {
      var waveId := if tasks[i].id in waveByTaskId then waveByTaskId[tasks[i].id] else "";
      slices := slices + [SliceOf(tasks[i], waveId, gate)];
    }
  }

  // ----- CompileExecutionPlan -----

  /** Slice `j` is in the wave just before slice `i`'s. */
  predicate InPreviousWave(slices: seq<Slice>, i: nat, j: nat)
    requires i < |slices| && j < |slices|
  {
    var mine, theirs := WaveIndex(slices[i].waveId), WaveIndex(slices[j].waveId);
    j != i && mine.Some? && theirs.Some? && mine.value == theirs.value + 1
  }

  /** `waveBarrierTaskIDs`: every task of the wave just before. */
  method WaveBarrierTaskIds(slices: seq<Slice>, index: int) returns (barrier: seq<Id>)
    ensures !(0 <= index < |slices|) ==> barrier == []
    ensures 0 <= index < |slices| ==>
              forall id :: id in barrier <==>
                exists j ::
                  0 <= j < |slices| && InPreviousWave(slices, index, j) && id == TaskIdFromSliceId(slices[j].sliceId)
  {
    barrier := [];
    if index < 0 || index >= |slices| {
      return;
    }
    var current := WaveIndex(slices[index].waveId);
    if current.None? || current.value == 0 {
      return;
    }
    var previousWave := current.value - 1;
    for i := 0 to |slices|
      invariant forall id :: id in barrier <==>
                  exists j ::
                    0 <= j < i && InPreviousWave(slices, index, j) && id == TaskIdFromSliceId(slices[j].sliceId)
    {
      if i == index {
        continue;
      }
      var wave := WaveIndex(slices[i].waveId);
      if wave.None? || wave.value != previousWave {
        continue;
      }
      assert InPreviousWave(slices, index, i);
      barrier := barrier + [TaskIdFromSliceId(slices[i].sliceId)];
    }
  }

  /** `mergeTaskIDs`: the non-blank IDs of both lists, each once. */
  method MergeTaskIds(first: seq<Id>, second: seq<Id>) returns (merged: seq<Id>)
    ensures forall id :: id in merged <==> (id in first || id in second) && TrimSpace(id) != ""
    ensures forall i, j | 0 <= i < j < |merged| :: merged[i] != merged[j]
  {
    var both := first + second;
    var seen: set<Id> := {};
    merged := [];
    for i := 0 to |both|
      invariant forall id :: id in seen <==> id in merged
      invariant forall id :: id in merged <==> id in both[..i] && TrimSpace(id) != ""
      invariant forall i, j | 0 <= i < j < |merged| :: merged[i] != merged[j]
    {
      assert both[..i + 1] == both[..i] + [both[i]];
      if TrimSpace(both[i]) == "" || both[i] in seen {
        continue;
      }
      seen := seen + {both[i]};
      merged := merged + [both[i]];
    }
    assert both[..|both|] == both;
  }

  /** `d` is a dependency of compiled slice `i`: an explicit one, or a barrier. */
  ghost predicate CompiledDep(slices: seq<Slice>, i: nat, d: Id)
    requires i < |slices|
  {
    || (exists e :: e in slices[i].dependsOn && d == TaskIdFromSliceId(e))
    || (exists j :: 0 <= j < |slices| && InPreviousWave(slices, i, j) && d == TaskIdFromSliceId(slices[j].sliceId))
  }

  /** What a compiled task waits for, with the waves written out: its explicit dependencies, and every other slice whose
      wave number is one less. */
  lemma CompiledWaits(slices: seq<Slice>, tasks: seq<Task>, i: nat, d: Id)
    requires CompiledFrom(slices, tasks) && i < |slices|
    ensures d in tasks[i].dependsOn <==>
              || (exists e :: e in slices[i].dependsOn && "task-" + Lower(e) == d)
              || (exists j :: 0 <= j < |slices| && j != i && "task-" + Lower(slices[j].sliceId) == d
                              && WaveIndex(slices[j].waveId).Some? && WaveIndex(slices[i].waveId).Some?
                              && WaveIndex(slices[i].waveId).value == WaveIndex(slices[j].waveId).value + 1)
  {
    hide WaveIndex, Lower;
    assert CompiledAt(slices, i, tasks[i]);
    assert forall e :: TaskIdFromSliceId(e) == "task-" + Lower(e);
    if j :| 0 <= j < |slices| && j != i && "task-" + Lower(slices[j].sliceId) == d
            && WaveIndex(slices[j].waveId).Some? && WaveIndex(slices[i].waveId).Some?
            && WaveIndex(slices[i].waveId).value == WaveIndex(slices[j].waveId).value + 1 {
      assert InPreviousWave(slices, i, j);
    }
  }

  /** Compiled task `i` stands for slice `i`: its ID, requirements and file scope, and just the dependencies above. */
  ghost predicate CompiledFrom(slices: seq<Slice>, tasks: seq<Task>) {
    && |tasks| == |slices|
    && (forall i | 0 <= i < |slices| :: CompiledAt(slices, i, tasks[i]))
  }

  ghost predicate CompiledAt(slices: seq<Slice>, i: nat, task: Task)
    requires i < |slices|
  {
    && task.id == TaskIdFromSliceId(slices[i].sliceId)
    && task.requirementIds == slices[i].requirementIds
    && task.filesLikelyTouched == slices[i].filesLikelyTouched && task.readOnlyPaths == []
    && task.ownedPaths == (if slices[i].ownedPaths == [] then [DEFAULT_PATH] else slices[i].ownedPaths)
    && task.title == slices[i].title && (slices[i].risk != "" ==> task.riskLevel == slices[i].risk)
    && (forall d :: d in task.dependsOn <==> CompiledDep(slices, i, d))
  }

  lemma TaskIdNotBlank(sliceId: string)
    ensures TrimSpace(TaskIdFromSliceId(sliceId)) != ""
  {
    var id := TaskIdFromSliceId(sliceId);
    var left := TrimLeft(id, IsSpace);
    assert id[0] == 't' && left == id;
    NonSpaceStays(id);
  }

  lemma {:induction false} NonSpaceStays(s: string)
    requires s != "" && !IsSpace(s[0])
    ensures TrimRight(s, IsSpace) != ""
  {
    if IsSpace(s[|s| - 1]) {
      NonSpaceStays(s[..|s| - 1]);
    }
  }

  function RiskForGroup(reqs: seq<Requirement>): string {
    if exists i | 0 <= i < |reqs| :: ClassifyRisk(reqs[i].text) == "high" then "high"
    else if exists i | 0 <= i < |reqs| :: ClassifyRisk(reqs[i].text) == "medium" then "medium"
    else "low"
  }

  /** The highest risk of the group. */
  lemma RiskForGroupIs(reqs: seq<Requirement>)
    ensures RiskForGroup(reqs) == "high" <==> exists i :: 0 <= i < |reqs| && ClassifyRisk(reqs[i].text) == "high"
    ensures RiskForGroup(reqs) == "low" <==> forall i | 0 <= i < |reqs| :: ClassifyRisk(reqs[i].text) == "low"
    ensures RiskForGroup(reqs) in ["low", "medium", "high"]
  {
    hide ClassifyRisk;
    forall i | 0 <= i < |reqs| ensures ClassifyRisk(reqs[i].text) in ["low", "medium", "high"] { RiskIs(reqs[i].text); }
    assert "high"[0] == 'h' && "medium"[0] == 'm' && "low"[0] == 'l';
  }

  lemma EvidenceUnlessEmpty(reqs: seq<Requirement>)
    ensures EvidenceForGroup(reqs) == [] <==> reqs == []
  {
    GroupEvidenceIs(reqs);
    hide InferEvidence, EvidenceForGroup;
    if reqs != [] { assert InferEvidence(reqs[0].text)[0] in EvidenceForGroup(reqs); }
    if EvidenceForGroup(reqs) != [] { assert EvidenceForGroup(reqs)[0] in EvidenceForGroup(reqs); }
  }

  /** `lookupRequirements`. */
  method LookupRequirements(requirementsById: map<string, Requirement>, ids: seq<string>)
    returns (ok: bool, reqs: seq<Requirement>, missing: string)
    ensures ok <==> forall id | id in ids :: id in requirementsById
    ensures ok ==> |reqs| == |ids| && forall i | 0 <= i < |ids| :: reqs[i] == requirementsById[ids[i]]
    ensures !ok ==> missing !in requirementsById
                    && exists k :: 0 <= k < |ids| && ids[k] == missing
                                   && forall l | 0 <= l < k :: ids[l] in requirementsById
  {
    ok, reqs, missing := true, [], "";
    for i := 0 to |ids|
      invariant |reqs| == i
      invariant forall j | 0 <= j < i :: ids[j] in requirementsById && reqs[j] == requirementsById[ids[j]]
    {
      if ids[i] !in requirementsById {
        return false, reqs, ids[i];
      }
      reqs := reqs + [requirementsById[ids[i]]];
    }
  }

  /** One slice of `CompileExecutionPlan`. */
  method CompileSlice(slices: seq<Slice>, i: nat, reqs: seq<Requirement>) returns (task: Task)
    requires i < |slices|
    ensures task.id == TaskIdFromSliceId(slices[i].sliceId) && task.requirementIds == slices[i].requirementIds
    ensures task.filesLikelyTouched == slices[i].filesLikelyTouched
    ensures task.ownedPaths == if slices[i].ownedPaths == [] then [DEFAULT_PATH] else slices[i].ownedPaths
    ensures forall d :: d in task.dependsOn <==> CompiledDep(slices, i, d)
    ensures task.title == slices[i].title && task.readOnlyPaths == []
    ensures task.requiredEvidence == if reqs == [] then ["quality_gate_pass"] else EvidenceForGroup(reqs)
    ensures task.riskLevel == if slices[i].risk != "" then slices[i].risk else RiskForGroup(reqs)
  {
    var slice := slices[i];
    var explicit := TaskIds(slice.dependsOn);
    var barrier := WaveBarrierTaskIds(slices, i);
    var dependsOn := MergeTaskIds(explicit, barrier);
    forall d ensures d in dependsOn <==> CompiledDep(slices, i, d) {
      if d in explicit {
        var k :| 0 <= k < |explicit| && explicit[k] == d;
        TaskIdNotBlank(slice.dependsOn[k]);
        assert slice.dependsOn[k] in slice.dependsOn;
      }
      if e :| e in slice.dependsOn && d == TaskIdFromSliceId(e) {
        var k :| 0 <= k < |slice.dependsOn| && slice.dependsOn[k] == e;
        assert explicit[k] == d;
      }
      if j :| 0 <= j < |slices| && InPreviousWave(slices, i, j) && d == TaskIdFromSliceId(slices[j].sliceId) {
        TaskIdNotBlank(slices[j].sliceId);
      }
    }
    EvidenceUnlessEmpty(reqs);
    task := Task(TaskIdFromSliceId(slice.sliceId), slice.requirementIds, dependsOn,
                 if |slice.ownedPaths| == 0 then [DEFAULT_PATH] else slice.ownedPaths, [], slice.filesLikelyTouched,
                 slice.title, if slice.risk != "" then slice.risk else RiskForGroup(reqs),
                 if EvidenceForGroup(reqs) == [] then ["quality_gate_pass"] else EvidenceForGroup(reqs));
  }

  /** The requirements of a slice, in its order. */
  ghost function GroupOf(requirementsById: map<string, Requirement>, ids: seq<string>): seq<Requirement>
    requires forall id | id in ids :: id in requirementsById
  {
    seq(|ids|, k requires 0 <= k < |ids| => requirementsById[ids[k]])
  }

  /** A slice that says no risk gets the highest of its requirements, and evidence is what any of them calls for. */
  ghost predicate JudgedBy(requirementsById: map<string, Requirement>, slice: Slice, task: Task) {
    && (forall id | id in slice.requirementIds :: id in requirementsById)
    && var reqs := GroupOf(requirementsById, slice.requirementIds);
       && task.riskLevel == (if slice.risk != "" then slice.risk else RiskForGroup(reqs))
       && task.requiredEvidence == if slice.requirementIds == [] then ["quality_gate_pass"] else EvidenceForGroup(reqs)
  }

  /** The first requirement, slice by slice, that is not known. */
  ghost predicate FirstUnknown(requirementsById: map<string, Requirement>, slices: seq<Slice>, id: string) {
    && id !in requirementsById
    && exists i, k :: 0 <= i < |slices| && 0 <= k < |slices[i].requirementIds| && slices[i].requirementIds[k] == id
                      && (forall j, l | 0 <= j < i && 0 <= l < |slices[j].requirementIds| ::
                            slices[j].requirementIds[l] in requirementsById)
                      && forall l | 0 <= l < k :: slices[i].requirementIds[l] in requirementsById
  }

  /** Every requirement the first `n` slices name is known. */
  ghost predicate KnownUpTo(requirementsById: map<string, Requirement>, slices: seq<Slice>, n: nat) {
    forall i, id | 0 <= i < n && i < |slices| && id in slices[i].requirementIds :: id in requirementsById
  }

  ghost predicate CompiledUpTo(requirementsById: map<string, Requirement>, slices: seq<Slice>, tasks: seq<Task>,
                               n: nat) {
    && |tasks| == n <= |slices|
    && forall i | 0 <= i < n :: CompiledAt(slices, i, tasks[i]) && JudgedBy(requirementsById, slices[i], tasks[i])
  }

  lemma UpToNone(requirementsById: map<string, Requirement>, slices: seq<Slice>)
    ensures KnownUpTo(requirementsById, slices, 0) && CompiledUpTo(requirementsById, slices, [], 0)
  {
  }

  lemma UpToNext(requirementsById: map<string, Requirement>, slices: seq<Slice>, tasks: seq<Task>, n: nat, task: Task)
    requires n < |slices| && KnownUpTo(requirementsById, slices, n) && CompiledUpTo(requirementsById, slices, tasks, n)
    requires CompiledAt(slices, n, task) && JudgedBy(requirementsById, slices[n], task)
    requires forall id | id in slices[n].requirementIds :: id in requirementsById
    ensures KnownUpTo(requirementsById, slices, n + 1) && CompiledUpTo(requirementsById, slices, tasks + [task], n + 1)
  {
    hide CompiledAt, JudgedBy;
  }

  lemma UpToAll(requirementsById: map<string, Requirement>, slices: seq<Slice>, tasks: seq<Task>)
    requires CompiledUpTo(requirementsById, slices, tasks, |slices|)
    ensures CompiledFrom(slices, tasks)
    ensures forall i | 0 <= i < |slices| :: JudgedBy(requirementsById, slices[i], tasks[i])
  {
    hide CompiledAt, JudgedBy;
  }

  lemma FirstUnknownAt(requirementsById: map<string, Requirement>, slices: seq<Slice>, i: nat, id: string)
    requires i < |slices| && id !in requirementsById
    requires KnownUpTo(requirementsById, slices, i)
    requires exists k :: 0 <= k < |slices[i].requirementIds| && slices[i].requirementIds[k] == id
                         && forall l | 0 <= l < k :: slices[i].requirementIds[l] in requirementsById
    ensures FirstUnknown(requirementsById, slices, id)
    ensures !KnownUpTo(requirementsById, slices, |slices|)
  {
    var k :| 0 <= k < |slices[i].requirementIds| && slices[i].requirementIds[k] == id
             && forall l | 0 <= l < k :: slices[i].requirementIds[l] in requirementsById;
    forall j, l | 0 <= j < i && 0 <= l < |slices[j].requirementIds|
      ensures slices[j].requirementIds[l] in requirementsById
    {
      assert slices[j].requirementIds[l] in slices[j].requirementIds;
    }
  }

  lemma Judged(requirementsById: map<string, Requirement>, slice: Slice, reqs: seq<Requirement>, task: Task)
    requires |reqs| == |slice.requirementIds| && forall id | id in slice.requirementIds :: id in requirementsById
    requires forall k | 0 <= k < |reqs| :: reqs[k] == requirementsById[slice.requirementIds[k]]
    requires task.riskLevel == if slice.risk != "" then slice.risk else RiskForGroup(reqs)
    requires task.requiredEvidence == if reqs == [] then ["quality_gate_pass"] else EvidenceForGroup(reqs)
    ensures JudgedBy(requirementsById, slice, task)
  {
    hide RiskForGroup, EvidenceForGroup;
    assert reqs == GroupOf(requirementsById, slice.requirementIds);
  }

  lemma Compiles(slices: seq<Slice>, i: nat, task: Task)
    requires i < |slices|
    requires task.id == TaskIdFromSliceId(slices[i].sliceId) && task.requirementIds == slices[i].requirementIds
    requires task.filesLikelyTouched == slices[i].filesLikelyTouched && task.readOnlyPaths == []
    requires task.ownedPaths == if slices[i].ownedPaths == [] then [DEFAULT_PATH] else slices[i].ownedPaths
    requires task.title == slices[i].title && (slices[i].risk != "" ==> task.riskLevel == slices[i].risk)
    requires forall d :: d in task.dependsOn <==> CompiledDep(slices, i, d)
    ensures CompiledAt(slices, i, task)
  {
    hide CompiledDep, TaskIdFromSliceId;
  }

  /** `CompileExecutionPlan` refuses an empty plan and unknown requirements, and otherwise compiles every slice. */
  method CompileExecutionPlan(requirementsById: map<string, Requirement>, slices: seq<Slice>) returns (r: CompileResult)
    ensures r.Success? <==> slices != [] && KnownUpTo(requirementsById, slices, |slices|)
    ensures r.Failure? ==> (slices == [] && r.error == NoSlices)
                           || (r.error.UnknownRequirement? && FirstUnknown(requirementsById, slices, r.error.id))
    ensures r.Success? ==> CompiledFrom(slices, r.value.tasks) && IsCoverage(r.value.tasks, r.value.coverage)
    ensures r.Success? ==> forall i | 0 <= i < |slices| :: JudgedBy(requirementsById, slices[i], r.value.tasks[i])
  {
    if |slices| == 0 {
      return Failure(NoSlices);
    }
    hide CompiledDep, TaskIdFromSliceId, JudgedBy, FirstUnknown, CompiledAt, RiskForGroup, EvidenceForGroup;
    hide IsCoverage, KnownUpTo, CompiledUpTo, CompiledFrom;
    var tasks: seq<Task> := [];
    UpToNone(requirementsById, slices);
    for i := 0 to |slices|
      invariant KnownUpTo(requirementsById, slices, i) && CompiledUpTo(requirementsById, slices, tasks, i)
    {
      var ok, reqs, missing := LookupRequirements(requirementsById, slices[i].requirementIds);
      if !ok {
        FirstUnknownAt(requirementsById, slices, i, missing);
        return Failure(UnknownRequirement(missing));
      }
      var task := CompileSlice(slices, i, reqs);
      Judged(requirementsById, slices[i], reqs, task);
      Compiles(slices, i, task);
      UpToNext(requirementsById, slices, tasks, i, task);
      tasks := tasks + [task];
    }
    UpToAll(requirementsById, slices, tasks);
    var coverage := BuildCoverage(tasks);
    return Success(Compiled(tasks, coverage));
  }
}

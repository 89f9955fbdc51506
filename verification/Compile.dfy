/** `Compile` and `PruneDependencies`: requirements to a task graph the scheduler can take. */
module Compile {
  import opened Sorting
  import opened Strings
  import opened Graphs
  import opened Paths
  import opened Tasks
  import opened Requirements

  // ----- coverage -----

  /** The map holds the covering tasks of every requirement that has some. */
  ghost predicate CoverageMapOf(tasks: seq<Task>, m: map<string, seq<Id>>) {
    forall r :: (r in m <==> Covering(tasks, r) != []) && (r in m ==> m[r] == Covering(tasks, r))
  }

  /** The covering tasks when only the first `k` requirement IDs of `task` have been looked at. */
  function CoveringUpTo(tasks: seq<Task>, task: Task, k: nat, r: string): seq<Id>
    requires k <= |task.requirementIds|
  {
    Covering(tasks, r) + Repeat(task.requirementIds[..k], r, task.id)
  }

  ghost predicate CoveredUpTo(tasks: seq<Task>, task: Task, k: nat, m: map<string, seq<Id>>)
    requires k <= |task.requirementIds|
  {
    forall r ::
      (r in m <==> CoveringUpTo(tasks, task, k, r) != []) && (r in m ==> m[r] == CoveringUpTo(tasks, task, k, r))
  }

  lemma CoveringStep(tasks: seq<Task>, task: Task, k: nat, m: map<string, seq<Id>>)
    requires k < |task.requirementIds| && CoveredUpTo(tasks, task, k, m)
    ensures var id := task.requirementIds[k];
            CoveredUpTo(tasks, task, k + 1, m[id := (if id in m then m[id] else []) + [task.id]])
  {
    hide CoveringUpTo;
    forall r ensures CoveringUpTo(tasks, task, k + 1, r) ==
        CoveringUpTo(tasks, task, k, r) + (if task.requirementIds[k] == r then [task.id] else []) {
      CoveringNext(tasks, task, k, r);
    }
  }

  lemma CoveringNext(tasks: seq<Task>, task: Task, k: nat, r: string)
    requires k < |task.requirementIds|
    ensures CoveringUpTo(tasks, task, k + 1, r) ==
            CoveringUpTo(tasks, task, k, r) + (if task.requirementIds[k] == r then [task.id] else [])
  {
    hide Covering;
    assert task.requirementIds[..k + 1][..k] == task.requirementIds[..k];
  }

  lemma CoveringEnds(tasks: seq<Task>, task: Task, m: map<string, seq<Id>>)
    ensures CoveredUpTo(tasks, task, 0, m) <==> CoverageMapOf(tasks, m)
    ensures CoveredUpTo(tasks, task, |task.requirementIds|, m) <==> CoverageMapOf(tasks + [task], m)
  {
    forall r ensures CoveringUpTo(tasks, task, 0, r) == Covering(tasks, r)
             ensures CoveringUpTo(tasks, task, |task.requirementIds|, r) == Covering(tasks + [task], r) {
      assert task.requirementIds[..|task.requirementIds|] == task.requirementIds;
      assert (tasks + [task])[..|tasks|] == tasks;
    }
    hide CoveringUpTo, Covering;
  }

  /** The loop over one task's requirement IDs. */
  method CoverTask(tasks: seq<Task>, task: Task, coverageMap: map<string, seq<Id>>)
    returns (after: map<string, seq<Id>>)
    requires CoverageMapOf(tasks, coverageMap)
    ensures CoverageMapOf(tasks + [task], after)
  {
    hide CoverageMapOf, CoveredUpTo;
    after := coverageMap;
    var ids := task.requirementIds;
    CoveringEnds(tasks, task, after);
    for k := 0 to |ids|
      invariant CoveredUpTo(tasks, task, k, after)
    {
      CoveringStep(tasks, task, k, after);
      var covered := if ids[k] in after then after[ids[k]] else [];
      after := after[ids[k] := covered + [task.id]];
    }
    CoveringEnds(tasks, task, after);
  }

  /** Coverage of a task list, sorted by requirement ID. */
  method BuildCoverage(tasks: seq<Task>) returns (coverage: seq<Coverage>)
    ensures IsCoverage(tasks, coverage)
  {
    var coverageMap: map<string, seq<Id>> := map[];
    for i := 0 to |tasks|
      invariant CoverageMapOf(tasks[..i], coverageMap)
    {
      assert tasks[..i + 1] == tasks[..i] + [tasks[i]];
      coverageMap := CoverTask(tasks[..i], tasks[i], coverageMap);
    }
    assert tasks[..|tasks|] == tasks;
    coverage := SortedEntries(coverageMap, tasks);
  }

  method SortedKeys(coverageMap: map<string, seq<Id>>) returns (sorted: seq<string>)
    ensures forall r :: r in sorted <==> r in coverageMap
    ensures forall i, j | 0 <= i < j < |sorted| :: Less(sorted[i], sorted[j])
  {
    hide Less;
    var keys: seq<string> := [];
    var rest := coverageMap.Keys;
    while rest != {}
      invariant rest <= coverageMap.Keys
      invariant forall r :: r in keys <==> r in coverageMap && r !in rest
      invariant forall i, j | 0 <= i < j < |keys| :: keys[i] != keys[j]
      decreases rest
    {
      var r :| r in rest;
      keys := keys + [r];
      rest := rest - {r};
    }
    sorted := Sorted(keys);
    SortedDistinctIncrease(keys);
    forall r ensures r in sorted <==> r in coverageMap {
      assert r in sorted <==> r in multiset(sorted);
      assert r in keys <==> r in multiset(keys);
    }
  }

  method SortedEntries(coverageMap: map<string, seq<Id>>, ghost tasks: seq<Task>) returns (coverage: seq<Coverage>)
    requires CoverageMapOf(tasks, coverageMap)
    ensures IsCoverage(tasks, coverage)
  {
    hide Less, Covering;
    var sorted := SortedKeys(coverageMap);
    coverage := [];
    for i := 0 to |sorted|
      invariant |coverage| == i
      invariant forall j | 0 <= j < i :: coverage[j] == Coverage(sorted[j], Covering(tasks, sorted[j]))
    {
      assert sorted[i] in sorted;
      coverage := coverage + [Coverage(sorted[i], coverageMap[sorted[i]])];
    }
    EntriesAreCoverage(tasks, sorted, coverage);
  }

  lemma EntriesAreCoverage(tasks: seq<Task>, sorted: seq<string>, coverage: seq<Coverage>)
    requires forall r :: r in sorted <==> Covering(tasks, r) != []
    requires forall i, j | 0 <= i < j < |sorted| :: Less(sorted[i], sorted[j])
    requires |coverage| == |sorted|
    requires forall j | 0 <= j < |sorted| :: coverage[j] == Coverage(sorted[j], Covering(tasks, sorted[j]))
    ensures IsCoverage(tasks, coverage)
  {
    hide Less, Covering;
    forall i | 0 <= i < |coverage| ensures coverage[i].coveringTaskIds != [] {
      assert sorted[i] in sorted;
    }
    forall r | Covering(tasks, r) != [] ensures exists i :: 0 <= i < |coverage| && coverage[i].requirementId == r {
      var i :| 0 <= i < |sorted| && sorted[i] == r;
      assert coverage[i].requirementId == r;
    }
  }

  lemma SortedDistinctIncrease(keys: seq<string>)
    requires forall i, j | 0 <= i < j < |keys| :: keys[i] != keys[j]
    ensures forall i, j | 0 <= i < j < |Sorted(keys)| :: Less(Sorted(keys)[i], Sorted(keys)[j])
  {
    var sorted := Sorted(keys);
    SortedInOrder(keys);
    forall i, j | 0 <= i < j < |sorted| ensures Less(sorted[i], sorted[j]) {
      if sorted[i] == sorted[j] {
        TwiceIsTwo(sorted, i, j);
        OnceIsOne(keys, sorted[i]);
        assert false;
      }
      LessTotal(sorted[i], sorted[j]);
    }
  }

  lemma TwiceIsTwo(s: seq<string>, i: nat, j: nat)
    requires i < j < |s| && s[i] == s[j]
    ensures multiset(s)[s[i]] >= 2
  {
    assert s == s[..i] + [s[i]] + s[i + 1..j] + [s[j]] + s[j + 1..];
  }

  lemma {:induction false} OnceIsOne(s: seq<string>, x: string)
    requires forall i, j | 0 <= i < j < |s| :: s[i] != s[j]
    ensures multiset(s)[x] <= 1
  {
    if s != [] {
      var front, last := s[..|s| - 1], s[|s| - 1];
      assert s == front + [last];
      OnceIsOne(front, x);
      if x == last { assert x !in front; }
    }
  }

  // ----- Compile -----

  /** `Compile`: one task per requirement, in some arrangement of them. */
  method CompileRequirements(requirements: seq<Requirement>) returns (r: CompileResult)
    ensures r.Failure? <==> requirements == []
    ensures r.Failure? ==> r.error == NoRequirements
    ensures r.Success? ==> CompiledTo(requirements, r.value.tasks) && IsCoverage(r.value.tasks, r.value.coverage)
  {
    if |requirements| == 0 {
      return Failure(NoRequirements);
    }
    var sorted := SortBy(RequirementLess, requirements);
    assert Arranged(requirements, sorted) by { SortedIsArranged(requirements); }
    var tasks := ChainLanes(sorted);
    var coverage := BuildCoverage(tasks);
    return Success(Compiled(tasks, coverage));
  }

  lemma SortedIsArranged(reqs: seq<Requirement>)
    ensures Arranged(reqs, SortBy(RequirementLess, reqs))
  {
    hide RequirementLess;
    RequirementLessIsTotalIff(reqs);
    hide Orderable;
    if Orderable(reqs) { SortBySorts(RequirementLess, reqs); }
  }

  lemma ChainStarts()
    ensures TasksOf([]) == [] && forall lane :: LaneDeps([], lane) == []
  {
  }

  lemma ChainNext(reqs: seq<Requirement>, i: nat)
    requires i < |reqs|
    ensures TasksOf(reqs[..i + 1]) == TasksOf(reqs[..i]) + [TaskOf(reqs[i], LaneDeps(reqs[..i], Lane(reqs[i])))]
    ensures forall lane :: LaneDeps(reqs[..i + 1], lane) ==
                           if Lane(reqs[i]) == lane then [TaskIdOf(reqs[i].id)] else LaneDeps(reqs[..i], lane)
  {
    hide Lane, TaskIdOf, TaskOf;
    assert reqs[..i + 1][..i] == reqs[..i];
  }

  /** The loop of `Compile` over the sorted requirements, with the last task of each lane. */
  method ChainLanes(reqs: seq<Requirement>) returns (tasks: seq<Task>)
    ensures tasks == TasksOf(reqs)
  {
    hide Lane, TaskIdOf, TaskOf, TasksOf, LaneDeps;
    ChainStarts();
    tasks := [];
    var previousTaskByLane: map<string, Id> := map[];
    for i := 0 to |reqs|
      invariant tasks == TasksOf(reqs[..i])
      invariant forall lane :: LaneDeps(reqs[..i], lane) ==
                               if lane in previousTaskByLane then [previousTaskByLane[lane]] else []
    {
      ChainNext(reqs, i);
      var taskId, laneKey := TaskIdOf(reqs[i].id), Lane(reqs[i]);
      var dependsOn := if laneKey in previousTaskByLane then [previousTaskByLane[laneKey]] else [];
      tasks := tasks + [TaskOf(reqs[i], dependsOn)];
      previousTaskByLane := previousTaskByLane[laneKey := taskId];
    }
    assert reqs[..|reqs|] == reqs;
  }

  /** The order in which an artifact lists its requirements does not matter when they can be ordered. */
  lemma CompileIgnoresInputOrder(a: seq<Requirement>, b: seq<Requirement>, s: seq<Task>, t: seq<Task>)
    requires multiset(a) == multiset(b) && Orderable(a) && CompiledTo(a, s) && CompiledTo(b, t)
    ensures s == t
  {
    hide Orderable, Arranged, TasksOf;
    var x :| Arranged(a, x) && s == TasksOf(x);
    var y :| Arranged(b, y) && t == TasksOf(y);
    OneArrangement(a, b, x, y);
  }

  lemma {:induction false} TasksOfAt(reqs: seq<Requirement>, i: nat)
    requires i < |reqs|
    ensures TasksOf(reqs)[i] == TaskOf(reqs[i], LaneDeps(reqs[..i], Lane(reqs[i])))
  {
    hide Lane, TaskOf, LaneDeps;
    var front := reqs[..|reqs| - 1];
    if i < |front| {
      TasksOfAt(front, i);
      assert front[..i] == reqs[..i];
    }
  }

  lemma {:induction false} LaneDepsEarlier(reqs: seq<Requirement>, lane: string)
    ensures forall d | d in LaneDeps(reqs, lane) :: exists j :: 0 <= j < |reqs| && d == TaskIdOf(reqs[j].id)
  {
    if reqs != [] {
      var front := reqs[..|reqs| - 1];
      LaneDepsEarlier(front, lane);
      forall d | d in LaneDeps(reqs, lane) ensures exists j :: 0 <= j < |reqs| && d == TaskIdOf(reqs[j].id) {
        if d in LaneDeps(front, lane) {
          if j :| 0 <= j < |front| && d == TaskIdOf(front[j].id) { assert d == TaskIdOf(reqs[j].id); }
        }
      }
    }
  }

  /** Distinct even when compared case-insensitively, as task IDs are. */
  ghost predicate DistinctFolded(reqs: seq<Requirement>) {
    forall i, j | 0 <= i < j < |reqs| :: Lower(reqs[i].id) != Lower(reqs[j].id)
  }

  lemma FoldedDistinct(reqs: seq<Requirement>)
    requires DistinctFolded(reqs)
    ensures DistinctIds(reqs)
  {
  }

  lemma ArrangementKeepsDistinct(reqs: seq<Requirement>, arranged: seq<Requirement>)
    requires DistinctFolded(reqs) && Arranged(reqs, arranged)
    ensures DistinctFolded(arranged)
  {
    hide Orderable, Lower;
    forall i, j | 0 <= i < j < |arranged| ensures Lower(arranged[i].id) != Lower(arranged[j].id) {
      if Lower(arranged[i].id) == Lower(arranged[j].id) {
        assert arranged[i] in multiset(arranged) && arranged[j] in multiset(arranged);
        var a :| 0 <= a < |reqs| && reqs[a] == arranged[i];
        var b :| 0 <= b < |reqs| && reqs[b] == arranged[j];
        assert a == b;
        RequirementTwice(arranged, i, j);
        RequirementOnce(reqs, reqs[a]);
        assert false;
      }
    }
  }

  lemma RequirementTwice(s: seq<Requirement>, i: nat, j: nat)
    requires i < j < |s| && s[i] == s[j]
    ensures multiset(s)[s[i]] >= 2
  {
    assert s == s[..i] + [s[i]] + s[i + 1..j] + [s[j]] + s[j + 1..];
  }

  lemma {:induction false} RequirementOnce(s: seq<Requirement>, x: Requirement)
    requires DistinctFolded(s)
    ensures multiset(s)[x] <= 1
  {
    if s != [] {
      var front, last := s[..|s| - 1], s[|s| - 1];
      assert s == front + [last];
      RequirementOnce(front, x);
      if x == last { assert x !in front; }
    }
  }

  // ----- the compiled graph -----

  /** What the scheduler needs of a task list: distinct IDs, and every dependency an earlier task of the list. */
  ghost predicate Chained(tasks: seq<Task>) {
    && UniqueIds(tasks)
    && (forall i, d | 0 <= i < |tasks| && d in tasks[i].dependsOn :: exists j :: 0 <= j < i && tasks[j].id == d)
  }

  lemma ChainedIsSchedulable(tasks: seq<Task>)
    requires Chained(tasks)
    ensures Acyclic(GraphOf(tasks)) && Closed(tasks)
  {
    TablesOfUnique(tasks);
    var order := Order(tasks);
    var rank: Id -> int := id => if id in order then order[id] + 1 else 0;
    forall a, b | Edge(GraphOf(tasks), a, b) ensures rank(a) > rank(b) && b in GraphOf(tasks) {
      var i := order[a];
      assert b in tasks[i].dependsOn;
      var j :| 0 <= j < i && tasks[j].id == b;
      assert order[b] == j;
    }
    RankedAcyclic(GraphOf(tasks), rank);
  }

  /** Whatever the arrangement, the tasks have distinct IDs and depend only on earlier ones. */
  lemma CompiledIsChained(requirements: seq<Requirement>, tasks: seq<Task>)
    requires DistinctFolded(requirements) && CompiledTo(requirements, tasks)
    ensures Chained(tasks)
  {
    hide Arranged, TasksOf, DistinctFolded, Chained;
    var reqs :| Arranged(requirements, reqs) && tasks == TasksOf(reqs);
    ArrangementKeepsDistinct(requirements, reqs);
    ArrangedIsChained(reqs);
  }

  lemma {:induction false} ArrangedIsChained(reqs: seq<Requirement>)
    requires DistinctFolded(reqs)
    ensures Chained(TasksOf(reqs))
  {
    hide Lane, LaneDeps, Lower;
    var tasks := TasksOf(reqs);
    forall i | 0 <= i < |tasks| ensures tasks[i].id == TaskIdOf(reqs[i].id) {
      TasksOfAt(reqs, i);
    }
    forall i, j | 0 <= i < j < |tasks| ensures tasks[i].id != tasks[j].id {
      assert TaskIdOf(reqs[i].id)[5..] == Lower(reqs[i].id) && TaskIdOf(reqs[j].id)[5..] == Lower(reqs[j].id);
    }
    hide TaskIdOf, TasksOf;
    forall i, d | 0 <= i < |tasks| && d in tasks[i].dependsOn ensures exists j :: 0 <= j < i && tasks[j].id == d {
      TasksOfAt(reqs, i);
      LaneDepsEarlier(reqs[..i], Lane(reqs[i]));
      var j :| 0 <= j < |reqs[..i]| && d == TaskIdOf(reqs[..i][j].id);
      assert tasks[j].id == d;
    }
  }

  /** Requirement `j` is the last one of its lane. */
  ghost predicate LastInLane(reqs: seq<Requirement>, lane: string, j: nat) {
    j < |reqs| && Lane(reqs[j]) == lane && forall k | j < k < |reqs| :: Lane(reqs[k]) != lane
  }

  /** Requirement `j` is the last one before `i` in the lane of `i`. */
  ghost predicate PreviousInLane(reqs: seq<Requirement>, i: nat, j: nat) {
    i < |reqs| && LastInLane(reqs[..i], Lane(reqs[i]), j)
  }

  lemma {:induction false} LaneDepsAre(reqs: seq<Requirement>, lane: string, d: Id)
    ensures d in LaneDeps(reqs, lane) <==> exists j: nat :: LastInLane(reqs, lane, j) && d == TaskIdOf(reqs[j].id)
  {
    hide Lane, TaskIdOf;
    if reqs != [] {
      var front, last := reqs[..|reqs| - 1], |reqs| - 1;
      LaneDepsAre(front, lane, d);
      if Lane(reqs[last]) == lane {
        assert forall j: nat :: LastInLane(reqs, lane, j) <==> j == last;
      } else {
        assert forall j: nat :: LastInLane(reqs, lane, j) <==> LastInLane(front, lane, j);
      }
    }
  }

  /** Each task depends on exactly the task of the previous requirement of its lane. */
  lemma DependsOnPrevious(reqs: seq<Requirement>, i: nat, d: Id)
    requires i < |reqs|
    ensures d in TasksOf(reqs)[i].dependsOn <==> exists j: nat ::
              PreviousInLane(reqs, i, j) && d == TaskIdOf(reqs[j].id)
  {
    hide Lane, TaskIdOf, LaneDeps;
    TasksOfAt(reqs, i);
    LaneDepsAre(reqs[..i], Lane(reqs[i]), d);
    assert forall j: nat | PreviousInLane(reqs, i, j) :: j < i && reqs[..i][j] == reqs[j];
    hide LastInLane;
  }

  lemma {:induction false} PreviousExists(reqs: seq<Requirement>, i: nat, j: nat, n: nat) returns (p: nat)
    requires j < n <= i < |reqs| && Lane(reqs[j]) == Lane(reqs[i])
    requires forall k | n <= k < i :: Lane(reqs[k]) != Lane(reqs[i])
    ensures j <= p && PreviousInLane(reqs, i, p)
  {
    hide Lane;
    p := n - 1;
    assert reqs[..i][p] == reqs[p];
    if Lane(reqs[n - 1]) != Lane(reqs[i]) { p := PreviousExists(reqs, i, j, n - 1); }
  }

  /** A lane is a chain: every task waits, directly or not, for all earlier tasks of its lane. */
  lemma {:induction false} LaneIsChain(reqs: seq<Requirement>, i: nat, j: nat)
    requires UniqueIds(TasksOf(reqs)) && j < i < |reqs| && Lane(reqs[j]) == Lane(reqs[i])
    ensures Reaches(GraphOf(TasksOf(reqs)), TaskIdOf(reqs[i].id), TaskIdOf(reqs[j].id))
    decreases i
  {
    hide Lane, TaskIdOf, Reaches, GraphOf;
    var tasks := TasksOf(reqs);
    var p := PreviousExists(reqs, i, j, i);
    DependsOnPrevious(reqs, i, TaskIdOf(reqs[p].id));
    TaskEdge(reqs, i, TaskIdOf(reqs[p].id));
    EdgeReaches(GraphOf(tasks), TaskIdOf(reqs[i].id), TaskIdOf(reqs[p].id));
    if p != j {
      LaneIsChain(reqs, p, j);
      ReachesTransitive(GraphOf(tasks), TaskIdOf(reqs[i].id), TaskIdOf(reqs[p].id), TaskIdOf(reqs[j].id));
    }
  }

  /** With distinct IDs a lane never closes a circle; one that comes back to an ID does: the tasks of its neighbours
      then wait for each other. */
  lemma RepeatedIdClosesACircle(a: Requirement, b: Requirement, c: Requirement)
    requires Lane(a) == Lane(b) == Lane(c) && TaskIdOf(a.id) == TaskIdOf(c.id) != TaskIdOf(b.id)
    ensures !Acyclic(GraphOf(TasksOf([a, b, c])))
  {
    hide Lane, TaskIdOf, TasksOf, LaneDeps, Acyclic;
    var reqs, tasks, x, y := [a, b, c], TasksOf([a, b, c]), TaskIdOf(a.id), TaskIdOf(b.id);
    BackAndForth(a, b, c);
    TasksOfAt(reqs, 1);
    TasksOfAt(reqs, 2);
    assert |tasks| == 3;
    LastOfThree(tasks);
    assert Edge(GraphOf(tasks), y, x) && Edge(GraphOf(tasks), x, y);
    EdgeReaches(GraphOf(tasks), x, y);
    EdgeReaches(GraphOf(tasks), y, x);
    ReachesTransitive(GraphOf(tasks), x, y, x);
    NotAcyclic(GraphOf(tasks), x);
  }

  lemma NotAcyclic(g: Graph, x: Id)
    requires Reaches(g, x, x)
    ensures !Acyclic(g)
  {
  }

  lemma BackAndForth(a: Requirement, b: Requirement, c: Requirement)
    requires Lane(a) == Lane(b) == Lane(c)
    ensures var reqs := [a, b, c];
            && LaneDeps(reqs[..1], Lane(b)) == [TaskIdOf(a.id)] && LaneDeps(reqs[..2], Lane(c)) == [TaskIdOf(b.id)]
  {
    hide Lane, TaskIdOf;
  }

  lemma LastOfThree(tasks: seq<Task>)
    requires |tasks| == 3
    ensures tasks[2].id in TaskMap(tasks) && TaskMap(tasks)[tasks[2].id] == tasks[2]
    ensures tasks[1].id != tasks[2].id ==> tasks[1].id in TaskMap(tasks) && TaskMap(tasks)[tasks[1].id] == tasks[1]
  {
    assert tasks[..2][..1] == tasks[..1];
  }

  lemma {:induction false} TaskEdge(reqs: seq<Requirement>, i: nat, d: Id)
    requires UniqueIds(TasksOf(reqs)) && i < |reqs| && d in TasksOf(reqs)[i].dependsOn
    ensures Edge(GraphOf(TasksOf(reqs)), TaskIdOf(reqs[i].id), d)
  {
    hide Lane, TaskIdOf;
    TasksOfAt(reqs, i);
    TablesOfUnique(TasksOf(reqs));
  }

  lemma {:induction false} CoveringNone(reqs: seq<Requirement>, reqId: string)
    requires forall i | 0 <= i < |reqs| :: reqs[i].id != reqId
    ensures Covering(TasksOf(reqs), reqId) == []
  {
    hide Lane, LaneDeps, TaskIdOf, ClassifyRisk, InferEvidence, Repeat;
    if reqs != [] {
      var front, last := TasksOf(reqs)[..|reqs| - 1], TasksOf(reqs)[|reqs| - 1];
      assert front == TasksOf(reqs[..|reqs| - 1]);
      CoveringNone(reqs[..|reqs| - 1], reqId);
      RepeatOne(reqs[|reqs| - 1].id, reqId, last.id);
    }
  }

  lemma RepeatOne(id: string, reqId: string, taskId: Id)
    ensures Repeat([id], reqId, taskId) == if id == reqId then [taskId] else []
  {
    assert [id][..0] == [];
  }

  lemma {:induction false} CoveringOne(reqs: seq<Requirement>, i: nat)
    requires DistinctIds(reqs) && i < |reqs|
    ensures Covering(TasksOf(reqs), reqs[i].id) == [TaskIdOf(reqs[i].id)]
  {
    hide Lane, LaneDeps, TaskIdOf, ClassifyRisk, InferEvidence, Repeat;
    var front, last := TasksOf(reqs)[..|reqs| - 1], TasksOf(reqs)[|reqs| - 1];
    assert front == TasksOf(reqs[..|reqs| - 1]);
    RepeatOne(reqs[|reqs| - 1].id, reqs[i].id, last.id);
    if i == |reqs| - 1 {
      CoveringNone(reqs[..|reqs| - 1], reqs[i].id);
    } else {
      CoveringOne(reqs[..|reqs| - 1], i);
    }
  }

  /** Every requirement is covered by exactly one task, its own. */
  lemma EachCoveredOnce(requirements: seq<Requirement>, tasks: seq<Task>, r: Requirement)
    requires DistinctFolded(requirements) && CompiledTo(requirements, tasks) && r in requirements
    ensures Covering(tasks, r.id) == [TaskIdOf(r.id)]
  {
    hide Orderable, TasksOf, Covering, TaskIdOf;
    var reqs :| Arranged(requirements, reqs) && tasks == TasksOf(reqs);
    ArrangementKeepsDistinct(requirements, reqs);
    FoldedDistinct(reqs);
    assert r in multiset(requirements);
    assert r in reqs;
    var i :| 0 <= i < |reqs| && reqs[i] == r;
    CoveringOne(reqs, i);
  }

  /** Coverage lists a task once for each time it names the requirement, in the order of the tasks. */
  lemma {:induction false} CoveringConcat(a: seq<Task>, b: seq<Task>, reqId: string)
    ensures Covering(a + b, reqId) == Covering(a, reqId) + Covering(b, reqId)
  {
    hide Repeat;
    if b == [] {
      assert a + b == a;
    } else {
      assert (a + b)[..|a + b| - 1] == a + b[..|b| - 1];
      CoveringConcat(a, b[..|b| - 1], reqId);
    }
  }

  lemma {:induction false} RepeatIs(ids: seq<string>, reqId: string, taskId: Id)
    ensures |Repeat(ids, reqId, taskId)| == multiset(ids)[reqId]
    ensures forall e | e in Repeat(ids, reqId, taskId) :: e == taskId
  {
    if ids != [] {
      var front, last := ids[..|ids| - 1], ids[|ids| - 1];
      RepeatIs(front, reqId, taskId);
      assert ids == front + [last];
      assert multiset(ids) == multiset(front) + multiset{last};
    }
  }

  lemma CoveringOfOne(t: Task, reqId: string)
    ensures |Covering([t], reqId)| == multiset(t.requirementIds)[reqId]
    ensures forall e | e in Covering([t], reqId) :: e == t.id
  {
    hide Repeat;
    RepeatIs(t.requirementIds, reqId, t.id);
    assert [t][..0] == [];
    assert Covering([], reqId) == [];
  }

  // ----- what a compiled task says -----

  /** Every field of a compiled task; its risk and evidence are those of `RiskIs` and `EvidenceIs`. */
  lemma CompiledFields(reqs: seq<Requirement>, i: nat)
    requires i < |reqs|
    ensures var r, t := reqs[i], TasksOf(reqs)[i];
            && t.id == "task-" + Lower(r.id) && t.requirementIds == [r.id] && t.title == "Implement " + r.id
            && t.ownedPaths == (if r.inferredPaths == [] then ["internal/engine"] else r.inferredPaths)
            && t.readOnlyPaths == [] && t.filesLikelyTouched == []
            && t.riskLevel == ClassifyRisk(r.text) && t.requiredEvidence == InferEvidence(r.text)
  {
    hide Lane, LaneDeps, Lower, ClassifyRisk, InferEvidence;
    TasksOfAt(reqs, i);
  }

  ghost predicate NoCapital(s: string) {
    forall i | 0 <= i < |s| :: !('A' <= s[i] <= 'Z')
  }

  /** Compiled IDs are the requirements' IDs behind a prefix, without capitals; IDs that differ only in case give
      one. */
  lemma CompiledIds(requirements: seq<Requirement>, tasks: seq<Task>)
    requires CompiledTo(requirements, tasks)
    ensures forall t | t in tasks :: NoCapital(t.id)
    ensures forall r | r in requirements :: exists t :: t in tasks && "task-" <= t.id && SameButCase(t.id[5..], r.id)
    ensures |tasks| == |requirements|
  {
    hide Orderable, Lower, TasksOf, SameButCase;
    var reqs: seq<Requirement> :| Arranged(requirements, reqs) && tasks == TasksOf(reqs);
    assert |reqs| == |multiset(reqs)| == |requirements|;
    forall i | 0 <= i < |reqs|
      ensures NoCapital(tasks[i].id) && "task-" <= tasks[i].id && SameButCase(tasks[i].id[5..], reqs[i].id)
    {
      CompiledFields(reqs, i);
      FoldedIdIs(reqs[i].id);
    }
    forall r | r in requirements
      ensures exists t :: t in tasks && "task-" <= t.id && SameButCase(t.id[5..], r.id)
    {
      assert r in multiset(reqs);
      var i :| 0 <= i < |reqs| && reqs[i] == r;
      assert tasks[i] in tasks;
    }
  }

  lemma FoldedIdIs(id: string)
    ensures NoCapital("task-" + Lower(id)) && ("task-" + Lower(id))[5..] == Lower(id)
    ensures SameButCase(Lower(id), id)
  {
    LowerCase(id);
    LowerIdempotent(id);
    SameLowerIff(Lower(id), id);
    hide Lower;
    var t := "task-" + Lower(id);
    forall i | 0 <= i < |t| ensures !('A' <= t[i] <= 'Z') {
      if i >= 5 { assert t[i] == Lower(id)[i - 5]; }
    }
  }

  lemma SameTaskIdIff(a: string, b: string)
    ensures TaskIdOf(a) == TaskIdOf(b) <==> SameButCase(a, b)
  {
    SameLowerIff(a, b);
    assert TaskIdOf(a)[5..] == Lower(a) && TaskIdOf(b)[5..] == Lower(b);
  }

  // ----- PruneDependencies -----

  /** `shouldKeepDependency`: owned paths meet, a requirement is shared, or one writes what the other reads. */
  ghost predicate RealCoupling(dep: Task, task: Task) {
    ScopesOverlap(dep.ownedPaths, task.ownedPaths)
    || (exists r :: r in dep.requirementIds && r in task.requirementIds)
    || ScopesOverlap(dep.ownedPaths, task.readOnlyPaths)
  }

  method PathSetsOverlap(left: seq<string>, right: seq<string>) returns (r: bool)
    ensures r == ScopesOverlap(left, right)
  {
    for i := 0 to |left|
      invariant forall a, b | 0 <= a < i && 0 <= b < |right| :: !Overlap(left[a], right[b])
    {
      for j := 0 to |right|
        invariant forall b | 0 <= b < j :: !Overlap(left[i], right[b])
      {
        if Overlap(left[i], right[j]) {
          return true;
        }
      }
    }
    return false;
  }

  method RequirementSetsOverlap(left: seq<string>, right: seq<string>) returns (r: bool)
    ensures r == exists x :: x in left && x in right
  {
    var seen := SetOf(left);
    for i := 0 to |right|
      invariant forall j | 0 <= j < i :: right[j] !in seen
    {
      if right[i] in seen {
        return true;
      }
    }
    return false;
  }

  method ShouldKeepDependency(dep: Task, task: Task) returns (r: bool)
    ensures r == RealCoupling(dep, task)
  {
    r := PathSetsOverlap(dep.ownedPaths, task.ownedPaths);
    if !r { r := RequirementSetsOverlap(dep.requirementIds, task.requirementIds); }
    if !r { r := PathSetsOverlap(dep.ownedPaths, task.readOnlyPaths); }
  }

  /** A dependency stays when it is unknown, or couples the two tasks for real. */
  ghost predicate Stays(taskById: map<Id, Task>, task: Task, dep: Id) {
    dep !in taskById || RealCoupling(taskById[dep], task)
  }

  /** Some of the dependencies of `task`, in order: those that stay. */
  ghost function Kept(taskById: map<Id, Task>, task: Task, deps: seq<Id>): seq<Id> {
    if deps == [] then []
    else
      var front := Kept(taskById, task, deps[..|deps| - 1]);
      if Stays(taskById, task, deps[|deps| - 1]) then front + [deps[|deps| - 1]] else front
  }

  /** Pruning goes dependency by dependency, so that those that stay keep their order. */
  lemma {:induction false} KeptConcat(taskById: map<Id, Task>, task: Task, a: seq<Id>, b: seq<Id>)
    ensures Kept(taskById, task, a + b) == Kept(taskById, task, a) + Kept(taskById, task, b)
  {
    hide Stays;
    if b == [] {
      assert a + b == a;
    } else {
      assert (a + b)[..|a + b| - 1] == a + b[..|b| - 1];
      KeptConcat(taskById, task, a, b[..|b| - 1]);
    }
  }

  lemma KeptOne(taskById: map<Id, Task>, task: Task, d: Id)
    ensures Kept(taskById, task, [d]) == if Stays(taskById, task, d) then [d] else []
  {
    hide Stays;
    assert [d][..0] == [];
  }

  lemma {:induction false} KeptMembers(taskById: map<Id, Task>, task: Task, deps: seq<Id>)
    ensures forall d :: d in Kept(taskById, task, deps) <==> d in deps && Stays(taskById, task, d)
  {
    hide Stays;
    if deps != [] {
      assert deps == deps[..|deps| - 1] + [deps[|deps| - 1]];
      KeptMembers(taskById, task, deps[..|deps| - 1]);
    }
  }

  /** `PruneDependencies` drops exactly the edges between known tasks with no real coupling, and changes nothing
      else. */
  method PruneDependencies(tasks: seq<Task>) returns (pruned: seq<Task>)
    ensures |pruned| == |tasks|
    ensures forall i | 0 <= i < |tasks| ::
              pruned[i] == tasks[i].(dependsOn := Kept(TaskMap(tasks), tasks[i], tasks[i].dependsOn))
  {
    hide Stays;
    var taskById := TaskMap(tasks);
    pruned := [];
    for i := 0 to |tasks|
      invariant |pruned| == i
      invariant forall j | 0 <= j < i ::
                  pruned[j] == tasks[j].(dependsOn := Kept(taskById, tasks[j], tasks[j].dependsOn))
    {
      var kept := KeepReal(taskById, tasks[i]);
      pruned := pruned + [tasks[i].(dependsOn := kept)];
    }
  }

  method KeepReal(taskById: map<Id, Task>, task: Task) returns (kept: seq<Id>)
    ensures kept == Kept(taskById, task, task.dependsOn)
  {
    hide RealCoupling;
    kept := [];
    var deps := task.dependsOn;
    for k := 0 to |deps|
      invariant kept == Kept(taskById, task, deps[..k])
    {
      assert deps[..k + 1][..k] == deps[..k];
      var keep := true;
      if deps[k] in taskById {
        keep := ShouldKeepDependency(taskById[deps[k]], task);
      }
      if keep {
        kept := kept + [deps[k]];
      }
    }
    assert deps[..|deps|] == deps;
  }

  /** Pruning keeps a chained list chained. */
  lemma PruneKeepsChained(tasks: seq<Task>, pruned: seq<Task>)
    requires Chained(tasks) && |pruned| == |tasks|
    requires forall i | 0 <= i < |tasks| ::
               pruned[i] == tasks[i].(dependsOn := Kept(TaskMap(tasks), tasks[i], tasks[i].dependsOn))
    ensures Chained(pruned)
  {
    forall i, d | 0 <= i < |pruned| && d in pruned[i].dependsOn ensures exists j :: 0 <= j < i && pruned[j].id == d {
      KeptMembers(TaskMap(tasks), tasks[i], tasks[i].dependsOn);
      var j :| 0 <= j < i && tasks[j].id == d;
      assert pruned[j].id == d;
    }
  }
}

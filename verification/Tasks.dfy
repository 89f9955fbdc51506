/** Tasks, and the tables the scheduler builds from a task list. */
module Tasks {
  import opened Graphs
  import opened Paths

  datatype Task = Task(
    id: Id,
    requirementIds: seq<string>,
    dependsOn: seq<Id>,
    ownedPaths: seq<string>,
    readOnlyPaths: seq<string>,
    filesLikelyTouched: seq<string>,
    title: string,
    riskLevel: string,
    requiredEvidence: seq<string>)
  {
    /** The paths that decide whether two tasks may run together. */
    function Scope(): seq<string> {
      if |filesLikelyTouched| > 0 then filesLikelyTouched else ownedPaths
    }
  }

  ghost predicate UniqueIds(tasks: seq<Task>) {
    forall i, j | 0 <= i < j < |tasks| :: tasks[i].id != tasks[j].id
  }

  function Ids(tasks: seq<Task>): (r: seq<Id>)
    ensures |r| == |tasks| && forall i | 0 <= i < |r| :: r[i] == tasks[i].id
  {
    seq(|tasks|, i requires 0 <= i < |tasks| => tasks[i].id)
  }

  /** Each ID with its task; a later task replaces an earlier one of the same ID. */
  function TaskMap(tasks: seq<Task>): map<Id, Task> {
    if tasks == [] then map[]
    else TaskMap(tasks[..|tasks| - 1])[tasks[|tasks| - 1].id := tasks[|tasks| - 1]]
  }

  /** Each ID with its position in the input. */
  function Order(tasks: seq<Task>): map<Id, nat> {
    if tasks == [] then map[]
    else Order(tasks[..|tasks| - 1])[tasks[|tasks| - 1].id := |tasks| - 1]
  }

  function DepsOf(taskMap: map<Id, Task>): Graph {
    map id | id in taskMap :: taskMap[id].dependsOn
  }

  function GraphOf(tasks: seq<Task>): Graph {
    DepsOf(TaskMap(tasks))
  }

  /** The tables hold exactly the IDs of the list, each at a position that has it. */
  lemma {:induction false} TableEntries(tasks: seq<Task>)
    ensures TaskMap(tasks).Keys == Order(tasks).Keys
    ensures forall id | id in Order(tasks) :: Order(tasks)[id] < |tasks| && tasks[Order(tasks)[id]].id == id
    ensures forall id | id in TaskMap(tasks) :: TaskMap(tasks)[id] == tasks[Order(tasks)[id]]
    ensures forall i | 0 <= i < |tasks| :: tasks[i].id in Order(tasks)
  {
    if tasks != [] {
      var front := tasks[..|tasks| - 1];
      TableEntries(front);
      forall i | 0 <= i < |tasks| ensures tasks[i].id in Order(tasks) {
        if i < |front| { assert front[i].id in Order(front); }
      }
      forall id | id in Order(tasks)
        ensures Order(tasks)[id] < |tasks| && tasks[Order(tasks)[id]].id == id
                && TaskMap(tasks)[id] == tasks[Order(tasks)[id]]
      {
        if id != tasks[|tasks| - 1].id { assert id in Order(front); }
      }
    }
  }

  lemma TablesOfUnique(tasks: seq<Task>)
    requires UniqueIds(tasks)
    ensures forall i | 0 <= i < |tasks| :: tasks[i].id in TaskMap(tasks) && TaskMap(tasks)[tasks[i].id] == tasks[i]
    ensures forall i | 0 <= i < |tasks| :: tasks[i].id in Order(tasks) && Order(tasks)[tasks[i].id] == i
    ensures TaskMap(tasks).Keys == Order(tasks).Keys
    ensures forall id | id in Order(tasks) :: Order(tasks)[id] < |tasks| && tasks[Order(tasks)[id]].id == id
  {
    TableEntries(tasks);
  }

  lemma {:induction false} TaskMapSize(tasks: seq<Task>)
    ensures |TaskMap(tasks)| <= |tasks|
  {
    if tasks != [] {
      var front := TaskMap(tasks[..|tasks| - 1]);
      TaskMapSize(tasks[..|tasks| - 1]);
      var id := tasks[|tasks| - 1].id;
      assert TaskMap(tasks).Keys == front.Keys + {id};
      assert |TaskMap(tasks).Keys| <= |front.Keys| + |{id}|;
    }
  }

  /** Two tasks touch overlapping files. */
  ghost predicate Clash(a: Task, b: Task) {
    ScopesOverlap(a.Scope(), b.Scope())
  }

  /** A path counts for a task when it is one of its files, or, when none are listed, one it owns. */
  ghost predicate Counts(t: Task, path: string) {
    path in t.filesLikelyTouched || (t.filesLikelyTouched == [] && path in t.ownedPaths)
  }

  lemma ClashIff(a: Task, b: Task)
    ensures Clash(a, b) <==> exists p, q :: Counts(a, p) && Counts(b, q) && Overlap(p, q)
  {
    hide Overlap;
    if Clash(a, b) {
      var i, j :| 0 <= i < |a.Scope()| && 0 <= j < |b.Scope()| && Overlap(a.Scope()[i], b.Scope()[j]);
      assert Counts(a, a.Scope()[i]) && Counts(b, b.Scope()[j]);
    }
    if p, q :| Counts(a, p) && Counts(b, q) && Overlap(p, q) {
      var i :| 0 <= i < |a.Scope()| && a.Scope()[i] == p;
      var j :| 0 <= j < |b.Scope()| && b.Scope()[j] == q;
    }
  }

  lemma ClashSymmetric(a: Task, b: Task)
    ensures Clash(a, b) == Clash(b, a)
  {
    ScopesOverlapSymmetric(a.Scope(), b.Scope());
  }

  /** Every dependency names a task of the list. */
  ghost predicate Closed(tasks: seq<Task>) {
    forall a, b | Edge(GraphOf(tasks), a, b) :: b in GraphOf(tasks)
  }

  // ----- computeDepth -----

  ghost predicate MemoCorrect(g: Graph, depth: map<Id, nat>) {
    forall id | id in depth :: depth[id] == Depth(g, id)
  }

  /** The memoised recursion computes the length of the longest dependency chain. */
  method ComputeDepth(id: Id, taskMap: map<Id, Task>, depth: map<Id, nat>) returns (d: nat, memo: map<Id, nat>)
    requires Acyclic(DepsOf(taskMap))
    requires MemoCorrect(DepsOf(taskMap), depth)
    ensures d == Depth(DepsOf(taskMap), id) && IsDepth(DepsOf(taskMap), id, d)
    ensures MemoCorrect(DepsOf(taskMap), memo) && id in memo && depth.Keys <= memo.Keys
    decreases Depth(DepsOf(taskMap), id)
  {
    hide Acyclic, IsDepth, Depth;
    ghost var g := DepsOf(taskMap);
    DepthIsDepth(g, id);
    memo := depth;
    if id in memo {
      return memo[id], memo;
    }
    if id !in taskMap {
      UnknownIsFlat(g, id);
      memo := memo[id := 0];
      return 0, memo;
    }
    var deps := taskMap[id].dependsOn;
    d := 0;
    DepthStep(g, id);
    for i := 0 to |deps|
      invariant MemoCorrect(g, memo) && depth.Keys <= memo.Keys
      invariant forall j | 0 <= j < i :: Depth(g, deps[j]) + 1 <= d
      invariant d == 0 || exists j | 0 <= j < i :: d == Depth(g, deps[j]) + 1
    {
      assert Edge(g, id, deps[i]);
      var depDepth;
      depDepth, memo := ComputeDepth(deps[i], taskMap, memo);
      if depDepth + 1 > d {
        d := depDepth + 1;
        assert d == Depth(g, deps[i]) + 1;
      }
    }
    DepthFromDependencies(g, id, d);
    memo := memo[id := d];
  }

  lemma UnknownIsFlat(g: Graph, id: Id)
    requires id !in g
    ensures Depth(g, id) == 0
  {
  }

  lemma DepthFromDependencies(g: Graph, id: Id, d: nat)
    requires Acyclic(g) && id in g
    requires forall j | 0 <= j < |g[id]| :: Depth(g, g[id][j]) + 1 <= d
    requires d == 0 || exists j | 0 <= j < |g[id]| :: d == Depth(g, g[id][j]) + 1
    ensures d == Depth(g, id)
  {
    hide Depth, Acyclic;
    DepthStep(g, id);
    if d > 0 {
      var j :| 0 <= j < |g[id]| && d == Depth(g, g[id][j]) + 1;
      assert Edge(g, id, g[id][j]);
    }
    if Depth(g, id) > 0 {
      var b :| Edge(g, id, b) && Depth(g, b) == Depth(g, id) - 1;
      var j :| 0 <= j < |g[id]| && g[id][j] == b;
    }
  }
}

/** What the wave barriers of a compiled plan guarantee. */
module Barriers {
  import opened Graphs
  import opened Tasks
  import opened WaveNames
  import opened Plans

  /** Slice `i` is in a numbered wave. */
  predicate InWave(slices: seq<Slice>, i: nat) {
    i < |slices| && WaveIndex(slices[i].waveId).Some?
  }

  /** Its number. */
  function WaveAt(slices: seq<Slice>, i: nat): nat
    requires InWave(slices, i)
  {
    WaveIndex(slices[i].waveId).value
  }

  /** Task IDs are distinct, and explicit dependencies name slices of the plan. */
  ghost predicate Linked(slices: seq<Slice>) {
    && (forall i, j | 0 <= i < j < |slices| ::
          TaskIdFromSliceId(slices[i].sliceId) != TaskIdFromSliceId(slices[j].sliceId))
    && (forall i, d | 0 <= i < |slices| && d in slices[i].dependsOn :: exists j :: Names(slices, d, j))
  }

  /** Below every wave number in use the next smaller one is in use too. */
  ghost predicate Gapless(slices: seq<Slice>) {
    forall i: nat | InWave(slices, i) && WaveAt(slices, i) > 0 ::
      exists j: nat :: InWave(slices, j) && WaveAt(slices, j) == WaveAt(slices, i) - 1
  }

  /** A plan in which every slice is in a numbered wave. */
  ghost predicate Numbered(slices: seq<Slice>) {
    Linked(slices) && Gapless(slices) && forall i: nat | i < |slices| :: InWave(slices, i)
  }

  /** Dependency `d` names slice `j`. */
  predicate Names(slices: seq<Slice>, d: string, j: int) {
    0 <= j < |slices| && TaskIdFromSliceId(slices[j].sliceId) == TaskIdFromSliceId(d)
  }

  /** The explicit dependencies, direct or not, lead from no numbered slice to one of a later wave. */
  ghost predicate NeverClimbs(slices: seq<Slice>) {
    forall i: nat, j: nat | InWave(slices, i) && InWave(slices, j) && ExplicitlyWaits(slices, i, j) ::
      WaveAt(slices, j) <= WaveAt(slices, i)
  }

  /** Slice `i` waits for slice `j` through explicit dependencies. */
  ghost predicate ExplicitlyWaits(slices: seq<Slice>, i: nat, j: nat) {
    i < |slices| && j < |slices|
    && Reaches(ExplicitGraph(slices), TaskIdFromSliceId(slices[i].sliceId), TaskIdFromSliceId(slices[j].sliceId))
  }

  /** Every slice depends only on strictly earlier waves. */
  ghost predicate AllEarlier(slices: seq<Slice>)
    requires Numbered(slices)
  {
    forall i, d, j | 0 <= i < |slices| && d in slices[i].dependsOn && Names(slices, d, j) ::
      WaveAt(slices, j) < WaveAt(slices, i)
  }

  /** The explicit dependencies alone, on task IDs. */
  function ExplicitGraph(slices: seq<Slice>): Graph {
    if slices == [] then map[]
    else
      var last := slices[|slices| - 1];
      ExplicitGraph(slices[..|slices| - 1])[TaskIdFromSliceId(last.sliceId) := TaskIds(last.dependsOn)]
  }

  lemma ExplicitGraphEdges(slices: seq<Slice>)
    requires forall i, j | 0 <= i < j < |slices| ::
               TaskIdFromSliceId(slices[i].sliceId) != TaskIdFromSliceId(slices[j].sliceId)
    ensures forall i | 0 <= i < |slices| :: TaskIdFromSliceId(slices[i].sliceId) in ExplicitGraph(slices)
              && ExplicitGraph(slices)[TaskIdFromSliceId(slices[i].sliceId)] == TaskIds(slices[i].dependsOn)
    ensures forall a | a in ExplicitGraph(slices) ::
              exists i :: 0 <= i < |slices| && TaskIdFromSliceId(slices[i].sliceId) == a
  {
    hide TaskIdFromSliceId, ExplicitGraph, TaskIds;
    forall i | 0 <= i < |slices| ensures TaskIdFromSliceId(slices[i].sliceId) in ExplicitGraph(slices)
              && ExplicitGraph(slices)[TaskIdFromSliceId(slices[i].sliceId)] == TaskIds(slices[i].dependsOn) {
      ExplicitGraphAt(slices, i);
    }
    forall a | a in ExplicitGraph(slices)
      ensures exists i :: 0 <= i < |slices| && TaskIdFromSliceId(slices[i].sliceId) == a
    {
      var i := SliceOfKey(slices, a);
    }
  }

  lemma {:induction false} ExplicitGraphAt(slices: seq<Slice>, i: nat)
    requires forall i, j | 0 <= i < j < |slices| ::
               TaskIdFromSliceId(slices[i].sliceId) != TaskIdFromSliceId(slices[j].sliceId)
    requires i < |slices|
    ensures TaskIdFromSliceId(slices[i].sliceId) in ExplicitGraph(slices)
    ensures ExplicitGraph(slices)[TaskIdFromSliceId(slices[i].sliceId)] == TaskIds(slices[i].dependsOn)
  {
    hide TaskIdFromSliceId, TaskIds;
    if i < |slices| - 1 {
      ExplicitGraphAt(slices[..|slices| - 1], i);
    }
  }

  lemma {:induction false} SliceOfKey(slices: seq<Slice>, a: Id) returns (i: nat)
    requires a in ExplicitGraph(slices)
    ensures i < |slices| && TaskIdFromSliceId(slices[i].sliceId) == a
  {
    hide TaskIdFromSliceId, TaskIds;
    i := |slices| - 1;
    if TaskIdFromSliceId(slices[i].sliceId) != a {
      i := SliceOfKey(slices[..i], a);
    }
  }

  lemma {:induction false} ExplicitGraphSize(slices: seq<Slice>)
    ensures |ExplicitGraph(slices)| <= |slices|
  {
    hide TaskIdFromSliceId, TaskIds;
    if slices != [] {
      var front := slices[..|slices| - 1];
      var g, id := ExplicitGraph(front), TaskIdFromSliceId(slices[|slices| - 1].sliceId);
      ExplicitGraphSize(front);
      assert ExplicitGraph(slices).Keys == g.Keys + {id};
      assert |ExplicitGraph(slices).Keys| <= |g.Keys| + |{id}|;
    }
  }

  lemma CompiledTables(slices: seq<Slice>, tasks: seq<Task>)
    requires Linked(slices) && CompiledFrom(slices, tasks)
    ensures UniqueIds(tasks) && |tasks| == |slices|
    ensures forall i, d | 0 <= i < |tasks| :: Edge(GraphOf(tasks), tasks[i].id, d) <==> d in tasks[i].dependsOn
    ensures forall a, d | Edge(GraphOf(tasks), a, d) :: exists i :: 0 <= i < |tasks| && tasks[i].id == a
    ensures forall i | 0 <= i < |tasks| ::
              tasks[i].id == TaskIdFromSliceId(slices[i].sliceId) && tasks[i].id in GraphOf(tasks)
  {
    hide WaveIndex, CompiledDep, TaskIdFromSliceId;
    TablesOfUnique(tasks);
    forall a, d | Edge(GraphOf(tasks), a, d) ensures exists i :: 0 <= i < |tasks| && tasks[i].id == a {
      assert tasks[Order(tasks)[a]].id == a;
    }
  }

  /** A dependency of a compiled task is an explicit one, or a task of the wave before. */
  lemma DependencyOrigin(slices: seq<Slice>, tasks: seq<Task>, i: nat, d: Id)
    returns (j: nat)
    requires Linked(slices) && CompiledFrom(slices, tasks)
    requires i < |slices| && d in tasks[i].dependsOn
    ensures j < |slices| == |tasks| && tasks[j].id == d
    ensures InPreviousWave(slices, i, j)
            || (Edge(ExplicitGraph(slices), tasks[i].id, d)
                && exists e :: e in slices[i].dependsOn && Names(slices, e, j))
  {
    hide TaskIdFromSliceId, WaveIndex, ExplicitGraph, TaskIds;
    assert CompiledDep(slices, i, d);
    if e :| e in slices[i].dependsOn && d == TaskIdFromSliceId(e) {
      j :| Names(slices, e, j);
      ExplicitGraphEdges(slices);
      var k :| 0 <= k < |slices[i].dependsOn| && slices[i].dependsOn[k] == e;
      assert TaskIds(slices[i].dependsOn)[k] == d;
    } else {
      j :| 0 <= j < |slices| && InPreviousWave(slices, i, j) && d == TaskIdFromSliceId(slices[j].sliceId);
    }
  }

  lemma CompiledIsClosed(slices: seq<Slice>, tasks: seq<Task>)
    requires Linked(slices) && CompiledFrom(slices, tasks)
    ensures Closed(tasks)
  {
    hide Linked, CompiledFrom, GraphOf, InPreviousWave, ExplicitGraph;
    CompiledTables(slices, tasks);
    forall a, b | Edge(GraphOf(tasks), a, b) ensures b in GraphOf(tasks) {
      var i :| 0 <= i < |tasks| && tasks[i].id == a;
      var j := DependencyOrigin(slices, tasks, i, b);
    }
  }

  lemma OrderOfCompiled(slices: seq<Slice>, tasks: seq<Task>, i: nat)
    requires Linked(slices) && CompiledFrom(slices, tasks) && i < |slices|
    ensures TaskIdFromSliceId(slices[i].sliceId) in Order(tasks)
    ensures Order(tasks)[TaskIdFromSliceId(slices[i].sliceId)] == i
  {
    hide TaskIdFromSliceId, WaveIndex, CompiledDep;
    CompiledTables(slices, tasks);
    TablesOfUnique(tasks);
  }

  // ----- when the compiled graph has no cycle -----

  /** One more than the highest wave among the first `n` slices that are `id` or that `id` explicitly waits for. */
  ghost function Height(slices: seq<Slice>, id: Id, n: nat): nat {
    if n == 0 then 0
    else
      var below := Height(slices, id, n - 1);
      if InWave(slices, n - 1) && WaitsOrIs(slices, id, n - 1) && WaveAt(slices, n - 1) + 1 > below
      then WaveAt(slices, n - 1) + 1 else below
  }

  ghost predicate WaitsOrIs(slices: seq<Slice>, id: Id, k: nat) {
    k < |slices|
    && (id == TaskIdFromSliceId(slices[k].sliceId)
          || Reaches(ExplicitGraph(slices), id, TaskIdFromSliceId(slices[k].sliceId)))
  }

  lemma {:induction false} HeightIsMax(slices: seq<Slice>, id: Id, n: nat)
    ensures forall k: nat | k < n && InWave(slices, k) && WaitsOrIs(slices, id, k) ::
              WaveAt(slices, k) < Height(slices, id, n)
    ensures Height(slices, id, n) == 0
            || exists k: nat ::
                 && k < n && InWave(slices, k) && WaitsOrIs(slices, id, k)
                 && WaveAt(slices, k) + 1 == Height(slices, id, n)
  {
    hide WaitsOrIs, InWave;
    if n > 0 { HeightIsMax(slices, id, n - 1); }
  }

  /** Along an explicit dependency the height does not grow. */
  lemma HeightFalls(slices: seq<Slice>, a: Id, b: Id)
    requires Edge(ExplicitGraph(slices), a, b)
    ensures Height(slices, b, |slices|) <= Height(slices, a, |slices|)
  {
    HeightIsMax(slices, a, |slices|);
    HeightIsMax(slices, b, |slices|);
    hide Height, InWave, Reaches, ExplicitGraph, TaskIdFromSliceId;
    if Height(slices, b, |slices|) > 0 {
      var k: nat :| k < |slices| && InWave(slices, k) && WaitsOrIs(slices, b, k)
                    && WaveAt(slices, k) + 1 == Height(slices, b, |slices|);
      EdgeReaches(ExplicitGraph(slices), a, b);
      if b != TaskIdFromSliceId(slices[k].sliceId) {
        ReachesTransitive(ExplicitGraph(slices), a, b, TaskIdFromSliceId(slices[k].sliceId));
      }
      assert WaitsOrIs(slices, a, k);
    }
  }

  /** When nothing climbs, the height of a numbered slice is its own wave. */
  lemma HeightIsWave(slices: seq<Slice>, i: nat)
    requires Linked(slices) && NeverClimbs(slices) && InWave(slices, i)
    ensures Height(slices, TaskIdFromSliceId(slices[i].sliceId), |slices|) == WaveAt(slices, i) + 1
  {
    NumberedIsSlice(slices, i);
    var id := TaskIdFromSliceId(slices[i].sliceId);
    HeightIsMax(slices, id, |slices|);
    hide Height, InWave, Reaches, ExplicitGraph, TaskIdFromSliceId, Names;
    assert WaitsOrIs(slices, id, i);
    var k: nat :| k < |slices| && InWave(slices, k) && WaitsOrIs(slices, id, k)
                  && WaveAt(slices, k) + 1 == Height(slices, id, |slices|);
    if id == TaskIdFromSliceId(slices[k].sliceId) {
      assert k == i;
    } else {
      assert ExplicitlyWaits(slices, i, k);
    }
  }

  lemma NumberedIsSlice(slices: seq<Slice>, k: nat)
    requires InWave(slices, k)
    ensures k < |slices|
  {
  }

  /** Height first, depth among the explicit dependencies second. */
  ghost function Rank(slices: seq<Slice>, id: Id): int {
    Height(slices, id, |slices|) * (|slices| + 1) + Depth(ExplicitGraph(slices), id)
  }

  lemma RankFalls(slices: seq<Slice>, tasks: seq<Task>, i: nat, d: Id)
    requires Linked(slices) && CompiledFrom(slices, tasks) && NeverClimbs(slices) && Acyclic(ExplicitGraph(slices))
    requires i < |slices| && d in tasks[i].dependsOn
    ensures Rank(slices, tasks[i].id) > Rank(slices, d)
  {
    hide CompiledFrom, Linked, NeverClimbs, Height, Depth, Acyclic, ExplicitGraph, WaveIndex;
    CompiledTables(slices, tasks);
    var g, id, n := ExplicitGraph(slices), tasks[i].id, |slices|;
    var j := DependencyOrigin(slices, tasks, i, d);
    assert Depth(g, d) <= n by {
      ExplicitGraphSize(slices);
      DepthWithin(g, d);
    }
    if Edge(g, id, d) {
      HeightFalls(slices, id, d);
      DepthStep(g, id);
    } else {
      assert InPreviousWave(slices, i, j);
      HeightIsWave(slices, i);
      HeightIsWave(slices, j);
    }
    Lexicographic(Height(slices, id, n), Height(slices, d, n), Depth(g, id), Depth(g, d), n + 1);
  }

  lemma {:induction false} Lexicographic(a: nat, b: nat, x: nat, y: nat, n: nat)
    requires y < n && (b < a || (b == a && y < x))
    ensures a * n + x > b * n + y
  {
    if b + 1 < a {
      Lexicographic(a - 1, b, x, y, n);
      assert a * n == (a - 1) * n + n;
    } else if b < a {
      assert a * n == b * n + n;
    }
  }

  lemma DepthWithin(g: Graph, x: Id)
    requires Acyclic(g)
    ensures Depth(g, x) <= |g|
  {
    DepthIsDepth(g, x);
    var p :| IsWalk(g, p) && p[0] == x && |p| == Depth(g, x) + 1;
    AcyclicBoundsWalks(g, p);
  }

  /** Explicit dependencies without a cycle that never climb are enough, whatever the waves are called. */
  lemma NeverClimbsIsAcyclic(slices: seq<Slice>, tasks: seq<Task>)
    requires Linked(slices) && CompiledFrom(slices, tasks) && Acyclic(ExplicitGraph(slices)) && NeverClimbs(slices)
    ensures Acyclic(GraphOf(tasks))
  {
    hide Linked, CompiledFrom, NeverClimbs, Acyclic, ExplicitGraph, GraphOf, Rank;
    CompiledTables(slices, tasks);
    var rank: Id -> int := id => Rank(slices, id);
    forall a, b | Edge(GraphOf(tasks), a, b) ensures rank(a) > rank(b) {
      var i :| 0 <= i < |tasks| && tasks[i].id == a;
      RankFalls(slices, tasks, i, b);
    }
    RankedAcyclic(GraphOf(tasks), rank);
  }

  /** When the wave numbers in use have no gap, the compiled graph, barriers included, is free of cycles exactly when
      the explicit dependencies are and lead from no numbered slice to one of a later wave. */
  lemma CompiledAcyclicIff(slices: seq<Slice>, tasks: seq<Task>)
    requires Linked(slices) && Gapless(slices) && CompiledFrom(slices, tasks)
    ensures Acyclic(GraphOf(tasks)) <==> Acyclic(ExplicitGraph(slices)) && NeverClimbs(slices)
  {
    hide Linked, Gapless, CompiledFrom, Acyclic, ExplicitGraph, GraphOf, InWave;
    if Acyclic(ExplicitGraph(slices)) && NeverClimbs(slices) {
      NeverClimbsIsAcyclic(slices, tasks);
    }
    if Acyclic(GraphOf(tasks)) {
      ExplicitIsPart(slices, tasks);
      forall i: nat, j: nat | InWave(slices, i) && InWave(slices, j) && ExplicitlyWaits(slices, i, j)
        ensures WaveAt(slices, j) <= WaveAt(slices, i)
      {
        if WaveAt(slices, j) > WaveAt(slices, i) {
          ClimbIsACycle(slices, tasks, i, j);
          assert false;
        }
      }
    }
  }

  lemma ClimbIsACycle(slices: seq<Slice>, tasks: seq<Task>, i: nat, j: nat)
    requires Linked(slices) && Gapless(slices) && CompiledFrom(slices, tasks)
    requires InWave(slices, i) && InWave(slices, j) && ExplicitlyWaits(slices, i, j)
    requires WaveAt(slices, i) < WaveAt(slices, j)
    ensures !Acyclic(GraphOf(tasks))
  {
    hide Linked, Gapless, CompiledFrom, ExplicitGraph, GraphOf, InWave, Reaches;
    CompiledTables(slices, tasks);
    ExplicitWalkIsPart(slices, tasks, tasks[i].id, tasks[j].id);
    WaitsForEarlierWaves(slices, tasks, j, i);
    ReachesTransitive(GraphOf(tasks), tasks[i].id, tasks[j].id, tasks[i].id);
  }

  lemma ExplicitWalkIsPart(slices: seq<Slice>, tasks: seq<Task>, a: Id, b: Id)
    requires Linked(slices) && CompiledFrom(slices, tasks) && Reaches(ExplicitGraph(slices), a, b)
    ensures Reaches(GraphOf(tasks), a, b)
  {
    hide Linked, CompiledFrom, ExplicitGraph, GraphOf, Edge;
    var p :| IsWalkBetween(ExplicitGraph(slices), p, a, b);
    forall k | 0 <= k < |p| - 1 ensures Edge(GraphOf(tasks), p[k], p[k + 1]) {
      ExplicitEdge(slices, tasks, p[k], p[k + 1]);
    }
    assert IsWalkBetween(GraphOf(tasks), p, a, b);
  }

  lemma ExplicitEdge(slices: seq<Slice>, tasks: seq<Task>, a: Id, b: Id)
    requires Linked(slices) && CompiledFrom(slices, tasks) && Edge(ExplicitGraph(slices), a, b)
    ensures Edge(GraphOf(tasks), a, b)
  {
    hide WaveIndex, TaskIdFromSliceId, GraphOf;
    ExplicitGraphEdges(slices);
    CompiledTables(slices, tasks);
    hide ExplicitGraph;
    var i :| 0 <= i < |slices| && TaskIdFromSliceId(slices[i].sliceId) == a;
    assert b in TaskIds(slices[i].dependsOn);
    var k :| 0 <= k < |slices[i].dependsOn| && TaskIds(slices[i].dependsOn)[k] == b;
    assert slices[i].dependsOn[k] in slices[i].dependsOn;
    assert CompiledDep(slices, i, b);
  }

  lemma ExplicitIsPart(slices: seq<Slice>, tasks: seq<Task>)
    requires Linked(slices) && CompiledFrom(slices, tasks) && Acyclic(GraphOf(tasks))
    ensures Acyclic(ExplicitGraph(slices))
  {
    hide Linked, CompiledFrom, Acyclic, GraphOf, ExplicitGraph, Depth;
    var g := GraphOf(tasks);
    var rank: Id -> int := x => Depth(g, x);
    forall a, b | Edge(ExplicitGraph(slices), a, b) ensures rank(a) > rank(b) {
      ExplicitEdge(slices, tasks, a, b);
      DepthStep(g, a);
    }
    RankedAcyclic(ExplicitGraph(slices), rank);
  }

  /** Wave number of a task ID, or 0. */
  function WaveRank(slices: seq<Slice>, order: map<Id, nat>, id: Id): int {
    if id in order && order[id] < |slices| && WaveIndex(slices[order[id]].waveId).Some?
    then WaveAt(slices, order[id]) else 0
  }

  lemma WaveRankFalls(slices: seq<Slice>, tasks: seq<Task>, a: Id, b: Id)
    requires Numbered(slices) && CompiledFrom(slices, tasks) && AllEarlier(slices) && Edge(GraphOf(tasks), a, b)
    ensures WaveRank(slices, Order(tasks), a) > WaveRank(slices, Order(tasks), b)
  {
    hide WaveIndex, CompiledDep, TaskIdFromSliceId, GraphOf, ExplicitGraph;
    CompiledTables(slices, tasks);
    var i :| 0 <= i < |tasks| && tasks[i].id == a;
    var j := DependencyOrigin(slices, tasks, i, b);
    OrderOfCompiled(slices, tasks, i);
    OrderOfCompiled(slices, tasks, j);
  }

  /** Dependencies on strictly earlier waves are enough. */
  lemma EarlierIsAcyclic(slices: seq<Slice>, tasks: seq<Task>)
    requires Numbered(slices) && CompiledFrom(slices, tasks) && AllEarlier(slices)
    ensures Acyclic(GraphOf(tasks))
  {
    hide WaveRank, Numbered, CompiledFrom, AllEarlier, Acyclic, GraphOf;
    var order := Order(tasks);
    var rank: Id -> int := id => WaveRank(slices, order, id);
    forall a, b | Edge(GraphOf(tasks), a, b) ensures rank(a) > rank(b) {
      WaveRankFalls(slices, tasks, a, b);
    }
    RankedAcyclic(GraphOf(tasks), rank);
  }

  lemma BarrierEdge(slices: seq<Slice>, tasks: seq<Task>, i: nat, j: nat)
    requires Linked(slices) && CompiledFrom(slices, tasks) && InWave(slices, i) && InWave(slices, j)
    requires WaveAt(slices, i) == WaveAt(slices, j) + 1
    ensures Reaches(GraphOf(tasks), tasks[i].id, tasks[j].id)
  {
    hide WaveIndex, TaskIdFromSliceId, GraphOf, Names;
    CompiledTables(slices, tasks);
    assert InPreviousWave(slices, i, j);
    assert CompiledDep(slices, i, tasks[j].id);
    EdgeReaches(GraphOf(tasks), tasks[i].id, tasks[j].id);
  }

  /** Where the wave numbers in use have no gap, every task of a numbered wave waits, through a chain of dependencies,
      for every task of every earlier wave. */
  lemma {:induction false} WaitsForEarlierWaves(slices: seq<Slice>, tasks: seq<Task>, i: nat, j: nat)
    requires Linked(slices) && Gapless(slices) && CompiledFrom(slices, tasks)
    requires InWave(slices, i) && InWave(slices, j) && WaveAt(slices, j) < WaveAt(slices, i)
    ensures Reaches(GraphOf(tasks), tasks[i].id, tasks[j].id)
    decreases WaveAt(slices, i)
  {
    NumberedIsSlice(slices, i);
    NumberedIsSlice(slices, j);
    hide Linked, CompiledFrom, GraphOf, InWave, Reaches;
    CompiledTables(slices, tasks);
    if WaveAt(slices, i) == WaveAt(slices, j) + 1 {
      BarrierEdge(slices, tasks, i, j);
    } else {
      var k: nat :| InWave(slices, k) && WaveAt(slices, k) == WaveAt(slices, i) - 1;
      NumberedIsSlice(slices, k);
      BarrierEdge(slices, tasks, i, k);
      WaitsForEarlierWaves(slices, tasks, k, j);
      ReachesTransitive(GraphOf(tasks), tasks[i].id, tasks[k].id, tasks[j].id);
    }
  }
}

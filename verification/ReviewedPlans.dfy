/** What passing the review is worth to a run, for plans written by hand as well: exactly which tasks of such a plan
    can be in flight together, exactly which can be finished, and plans that pass and fail at it. */
module ReviewedPlans {
  import opened Strings
  import opened Graphs
  import opened Paths
  import opened Tasks
  import opened WaveLayout
  import opened WaveNames
  import opened Plans
  import opened Barriers
  import opened Review
  import opened RunMachine
  import opened Together

  // ----- a reviewed plan as a graph -----

  lemma ReviewedIsLinked(slices: seq<Slice>, ids: seq<string>)
    requires InGoodOrder(slices, ids)
    ensures Linked(slices)
  {
    hide Lower, Acyclic, SameWaveConflict, Covered, FieldsComplete;
    forall i, j | 0 <= i < j < |slices|
      ensures TaskIdFromSliceId(slices[i].sliceId) != TaskIdFromSliceId(slices[j].sliceId)
    {
      assert TaskIdFromSliceId(slices[i].sliceId)[5..] == Lower(slices[i].sliceId);
      assert TaskIdFromSliceId(slices[j].sliceId)[5..] == Lower(slices[j].sliceId);
    }
    forall i, d | 0 <= i < |slices| && d in slices[i].dependsOn ensures exists j :: Names(slices, d, j) {
      assert GoodDeps(slices, i) && GoodDep(slices, i, d);
      var j :| 0 <= j < |slices| && j != i && slices[j].sliceId == d;
      assert Names(slices, d, j);
    }
  }

  /** The depth of a task's slice among the slices of the plan. */
  function SliceDepth(slices: seq<Slice>, order: map<Id, nat>, id: Id): int {
    if id in order && order[id] < |slices| then Depth(SliceGraph(slices), slices[order[id]].sliceId) else 0
  }

  lemma ReviewedDep(slices: seq<Slice>, ids: seq<string>, i: nat, d: string) returns (j: nat)
    requires InGoodOrder(slices, ids) && i < |slices| && d in slices[i].dependsOn
    ensures j < |slices| && slices[j].sliceId == d && Edge(SliceGraph(slices), slices[i].sliceId, d)
  {
    hide Acyclic, SameWaveConflict, Covered, FieldsComplete, DistinctSlices, SliceGraph;
    assert GoodDeps(slices, i) && GoodDep(slices, i, d);
    j :| 0 <= j < |slices| && j != i && slices[j].sliceId == d;
    SliceGraphEdges(slices);
  }

  lemma SliceDepthFalls(slices: seq<Slice>, ids: seq<string>, tasks: seq<Task>, a: Id, b: Id)
    requires InGoodOrder(slices, ids) && Linked(slices) && CompiledFrom(slices, tasks)
    requires Edge(ExplicitGraph(slices), a, b)
    ensures SliceDepth(slices, Order(tasks), a) > SliceDepth(slices, Order(tasks), b)
  {
    hide Acyclic, Depth, TaskIdFromSliceId, Lower, SameWaveConflict, Covered, FieldsComplete, GoodDeps, Names;
    hide SliceGraph, DistinctSlices, CompiledFrom, ExplicitGraph;
    ExplicitGraphEdges(slices);
    var i :| 0 <= i < |slices| && TaskIdFromSliceId(slices[i].sliceId) == a;
    var k :| 0 <= k < |slices[i].dependsOn| && TaskIds(slices[i].dependsOn)[k] == b;
    var d := slices[i].dependsOn[k];
    var j := ReviewedDep(slices, ids, i, d);
    OrderOfCompiled(slices, tasks, i);
    OrderOfCompiled(slices, tasks, j);
    DepthStep(SliceGraph(slices), slices[i].sliceId);
  }

  /** The explicit dependencies of a reviewed plan have no cycle on task IDs either. */
  lemma ReviewedIsAcyclic(slices: seq<Slice>, ids: seq<string>, tasks: seq<Task>)
    requires InGoodOrder(slices, ids) && Linked(slices) && CompiledFrom(slices, tasks)
    ensures Acyclic(ExplicitGraph(slices))
  {
    hide InGoodOrder, Linked, CompiledFrom, SliceDepth, ExplicitGraph, Acyclic;
    var order := Order(tasks);
    var rank: Id -> int := id => SliceDepth(slices, order, id);
    forall a, b | Edge(ExplicitGraph(slices), a, b) ensures rank(a) > rank(b) {
      SliceDepthFalls(slices, ids, tasks, a, b);
    }
    RankedAcyclic(ExplicitGraph(slices), rank);
  }

  /** Every reviewed plan compiles to closed tasks with distinct IDs, whatever its waves are called. They wait for
      each other in no circle when the explicit dependencies never climb to a later wave, and where the wave numbers
      in use have no gap only then; the review looks at single dependencies within one wave only. */
  lemma ReviewedCompilesIff(slices: seq<Slice>, ids: seq<string>, tasks: seq<Task>)
    requires InGoodOrder(slices, ids) && CompiledFrom(slices, tasks)
    ensures UniqueIds(tasks) && Closed(tasks)
    ensures NeverClimbs(slices) ==> Acyclic(GraphOf(tasks))
    ensures Gapless(slices) ==> (Acyclic(GraphOf(tasks)) <==> NeverClimbs(slices))
  {
    hide InGoodOrder, Gapless, Acyclic, NeverClimbs, CompiledFrom, Linked, UniqueIds, Closed;
    ReviewedIsLinked(slices, ids);
    ReviewedIsAcyclic(slices, ids, tasks);
    CompiledTables(slices, tasks);
    CompiledIsClosed(slices, tasks);
    if NeverClimbs(slices) { NeverClimbsIsAcyclic(slices, tasks); }
    if Gapless(slices) { CompiledAcyclicIff(slices, tasks); }
  }

  // ----- a reviewed plan in a run -----

  /** In no disciplined run are two tasks in flight together that touch overlapping files. */
  ghost predicate NeverClashes(tasks: seq<Task>, run: Id, m: Machine) {
    forall i, j | 0 <= i < j < |tasks| && Clash(tasks[i], tasks[j]) :: !CanMeet(m, run, tasks[i].id, tasks[j].id)
  }

  /** The compiled dependencies order the two tasks, or one of them waits for a circle. */
  ghost predicate KeptApart(g: Graph, a: Id, b: Id) {
    Reaches(g, a, b) || Reaches(g, b, a) || !Unobstructed(g, a) || !Unobstructed(g, b)
  }

  /** A reviewed plan never puts clashing tasks in flight together exactly when its compiled dependencies keep every
      clashing pair apart. */
  lemma ReviewedNeverClashesIff(slices: seq<Slice>, ids: seq<string>, tasks: seq<Task>, run: Id, m: Machine)
    requires InGoodOrder(slices, ids) && CompiledFrom(slices, tasks) && Initial(tasks, run, m)
    ensures NeverClashes(tasks, run, m) <==>
              forall i, j | 0 <= i < j < |tasks| && Clash(tasks[i], tasks[j]) ::
                KeptApart(GraphOf(tasks), tasks[i].id, tasks[j].id)
  {
    hide InGoodOrder, CompiledFrom, Linked, Closed, Initial, CanMeet, Reaches, Unobstructed, GraphOf, Clash, Acyclic;
    ReviewedCompilesIff(slices, ids, tasks);
    ReviewedIsLinked(slices, ids);
    CompiledTables(slices, tasks);
    forall i, j | 0 <= i < j < |tasks|
      ensures CanMeet(m, run, tasks[i].id, tasks[j].id) <==> !KeptApart(GraphOf(tasks), tasks[i].id, tasks[j].id)
    {
      MeetIff(tasks, run, m, tasks[i].id, tasks[j].id);
    }
  }

  lemma CircleIsOfTasks(slices: seq<Slice>, tasks: seq<Task>, x: Id) returns (i: nat)
    requires Linked(slices) && CompiledFrom(slices, tasks) && Reaches(GraphOf(tasks), x, x)
    ensures i < |tasks| && tasks[i].id == x && !Unobstructed(GraphOf(tasks), tasks[i].id)
  {
    hide Linked, CompiledFrom, GraphOf, Reaches;
    CompiledTables(slices, tasks);
    var y := CycleContinues(GraphOf(tasks), x);
    i :| 0 <= i < |tasks| && tasks[i].id == x;
  }

  /** One run can bring all tasks of a reviewed plan to done exactly when its compiled dependencies have no cycle;
      otherwise some task alone can never be finished. */
  lemma ReviewedFinishesIff(slices: seq<Slice>, ids: seq<string>, tasks: seq<Task>, run: Id, m: Machine)
    requires InGoodOrder(slices, ids) && CompiledFrom(slices, tasks) && Initial(tasks, run, m)
    ensures CanFinishAll(GraphOf(tasks), m, run) <==> Acyclic(GraphOf(tasks))
    ensures (forall i | 0 <= i < |tasks| :: CanFinish(m, run, tasks[i].id)) <==> Acyclic(GraphOf(tasks))
  {
    hide InGoodOrder, CompiledFrom, Linked, Closed, Initial, CanFinish, CanFinishAll, Reaches, GraphOf;
    ReviewedCompilesIff(slices, ids, tasks);
    FinishAllIff(tasks, run, m);
    ReviewedIsLinked(slices, ids);
    CompiledTables(slices, tasks);
    var g := GraphOf(tasks);
    forall i | 0 <= i < |tasks| ensures CanFinish(m, run, tasks[i].id) <==> Unobstructed(g, tasks[i].id) {
      FinishIff(tasks, run, m, tasks[i].id);
    }
    if forall i | 0 <= i < |tasks| :: CanFinish(m, run, tasks[i].id) {
      forall x ensures !Reaches(g, x, x) {
        if Reaches(g, x, x) {
          var i := CircleIsOfTasks(slices, tasks, x);
          assert false;
        }
      }
    }
  }

  // ----- plans the review lets through -----

  function Sample(id: string, deps: seq<string>, waveId: string, path: string): Slice {
    Slice(id, "t", "g", ["R-1"], deps, waveId, [], [path], ["make test"], "low", "small")
  }

  lemma SampleIds()
    ensures Lower("a") == "a" && Lower("b") == "b"
    ensures TaskIdFromSliceId("a") == "task-a" && TaskIdFromSliceId("b") == "task-b"
  {
    assert Lower("a") == "a" && Lower("b") == "b";
  }

  lemma SampleGraph(a: Slice, b: Slice)
    requires a.sliceId == "a" && b.sliceId == "b" && b.dependsOn == []
    requires a.dependsOn == [] || a.dependsOn == ["b"]
    ensures Acyclic(SliceGraph([a, b]))
  {
    var slices := [a, b];
    assert slices[..1] == [a] && [a][..0] == [];
    assert SliceGraph([a]) == map["a" := a.dependsOn];
    assert SliceGraph(slices) == map["a" := a.dependsOn, "b" := []];
    var rank: Id -> int := id => if id == "a" then 1 else 0;
    assert Ranked(SliceGraph(slices), rank);
    RankedAcyclic(SliceGraph(slices), rank);
  }

  /** A slice of `wave-0` that depends on one of `wave-1` passes, and the compiled tasks wait for each other for
      ever. */
  lemma LaterDependencyPasses(tasks: seq<Task>, run: Id, m: Machine)
    requires CompiledFrom([Sample("a", ["b"], "wave-0", "x"), Sample("b", [], "wave-1", "y")], tasks)
    requires Initial(tasks, run, m)
    ensures InGoodOrder([Sample("a", ["b"], "wave-0", "x"), Sample("b", [], "wave-1", "y")], ["R-1"])
    ensures exists i :: 0 <= i < |tasks| && !CanFinish(m, run, tasks[i].id)
  {
    var slices := [Sample("a", ["b"], "wave-0", "x"), Sample("b", [], "wave-1", "y")];
    LaterIsInGoodOrder(slices);
    LaterWaves(slices);
    hide InGoodOrder, CompiledFrom, Acyclic, Gapless, GraphOf, NeverClimbs, Initial, CanFinish;
    ReviewedCompilesIff(slices, ["R-1"], tasks);
    ReviewedFinishesIff(slices, ["R-1"], tasks, run, m);
  }

  lemma LaterWaves(slices: seq<Slice>)
    requires slices == [Sample("a", ["b"], "wave-0", "x"), Sample("b", [], "wave-1", "y")]
    ensures Gapless(slices) && !NeverClimbs(slices)
  {
    WaveNames01();
    SampleIds();
    hide WaveIndex, TaskIdFromSliceId, Reaches, ExplicitGraph;
    assert InWave(slices, 0) && InWave(slices, 1) && WaveAt(slices, 0) == 0 && WaveAt(slices, 1) == 1;
    LaterEdge(slices);
    EdgeReaches(ExplicitGraph(slices), "task-a", "task-b");
    assert ExplicitlyWaits(slices, 0, 1);
  }

  lemma LaterEdge(slices: seq<Slice>)
    requires slices == [Sample("a", ["b"], "wave-0", "x"), Sample("b", [], "wave-1", "y")]
    ensures Edge(ExplicitGraph(slices), "task-a", "task-b")
  {
    SampleIds();
    hide TaskIdFromSliceId, WaveIndex;
    ExplicitGraphEdges(slices);
    assert TaskIds(["b"])[0] == "task-b";
    assert TaskIdFromSliceId(slices[0].sliceId) == "task-a" && slices[0].dependsOn == ["b"];
  }

  lemma WaveNames01()
    ensures WaveIndex("wave-0") == Some(0) && WaveIndex("wave-1") == Some(1)
  {
    hide WaveIndex;
    assert WaveName(0) == "wave-0" && WaveName(1) == "wave-1";
    WaveIndexOfName(0);
    WaveIndexOfName(1);
  }

  lemma LaterIsInGoodOrder(slices: seq<Slice>)
    requires slices == [Sample("a", ["b"], "wave-0", "x"), Sample("b", [], "wave-1", "y")]
    ensures InGoodOrder(slices, ["R-1"])
  {
    SampleIds();
    SampleGraph(slices[0], slices[1]);
    hide Lower, Acyclic, SliceGraph, ScopesOverlap;
    assert slices[1].sliceId == "b" && slices[0].waveId[5] != slices[1].waveId[5];
    assert GoodDep(slices, 0, "b");
    assert "R-1" in slices[0].requirementIds;
  }

  /** Two slices on one file, in the waves `u` and `v`. */
  function Twins(u: string, v: string): seq<Slice> {
    [Sample("a", [], u, "x"), Sample("b", [], v, "x")]
  }

  /** No wave name is one more than the other. */
  predicate NotAdjacent(u: string, v: string) {
    var p, q := WaveIndex(u), WaveIndex(v);
    p.Some? && q.Some? ==> p.value != q.value + 1 && q.value != p.value + 1
  }

  lemma TwinsAreInGoodOrder(u: string, v: string)
    requires u == "" || u != v
    ensures InGoodOrder(Twins(u, v), ["R-1"])
  {
    var slices := Twins(u, v);
    SampleIds();
    SampleGraph(slices[0], slices[1]);
    hide Lower, Acyclic, SliceGraph, ScopesOverlap;
    assert "R-1" in slices[0].requirementIds;
  }

  lemma TwinsHaveNoDeps(u: string, v: string, tasks: seq<Task>)
    requires NotAdjacent(u, v) && CompiledFrom(Twins(u, v), tasks)
    ensures |tasks| == 2 && tasks[0].dependsOn == [] == tasks[1].dependsOn
    ensures tasks[0].id == "task-a" && tasks[1].id == "task-b"
    ensures tasks[0].Scope() == ["x"] == tasks[1].Scope()
  {
    SampleIds();
    hide WaveIndex, TaskIdFromSliceId;
    forall i, d | 0 <= i < 2 ensures d !in tasks[i].dependsOn {
      assert !CompiledDep(Twins(u, v), i, d);
    }
    NothingListed(tasks[0].dependsOn);
    NothingListed(tasks[1].dependsOn);
  }

  lemma NothingListed(ids: seq<Id>)
    ensures (forall d :: d !in ids) <==> ids == []
  {
    if ids != [] { assert ids[0] in ids; }
  }

  lemma SamePathOverlaps(left: seq<string>, right: seq<string>)
    requires left == right == ["x"]
    ensures ScopesOverlap(left, right)
  {
    assert Clean("x");
    NormalizeFixesClean("x");
    assert Overlap(left[0], right[0]);
  }

  /** Twins in waves with no barrier between them pass the review, touch the same file, and can be in flight
      together. */
  lemma TwinsMeet(u: string, v: string, tasks: seq<Task>, run: Id, m: Machine)
    requires (u == "" || u != v) && NotAdjacent(u, v) && CompiledFrom(Twins(u, v), tasks) && Initial(tasks, run, m)
    ensures InGoodOrder(Twins(u, v), ["R-1"]) && !NeverClashes(tasks, run, m)
  {
    TwinsAreInGoodOrder(u, v);
    TwinsHaveNoDeps(u, v, tasks);
    SamePathOverlaps(tasks[0].Scope(), tasks[1].Scope());
    TwinsAreUnordered(tasks);
    hide InGoodOrder, CompiledFrom, Initial, NeverClashes, ScopesOverlap, KeptApart, Twins;
    ReviewedNeverClashesIff(Twins(u, v), ["R-1"], tasks, run, m);
    assert Clash(tasks[0], tasks[1]);
  }

  lemma TwinsAreUnordered(tasks: seq<Task>)
    requires |tasks| == 2 && tasks[0].dependsOn == [] == tasks[1].dependsOn && tasks[0].id != tasks[1].id
    ensures !KeptApart(GraphOf(tasks), tasks[0].id, tasks[1].id)
  {
    var g := GraphOf(tasks);
    TableEntries(tasks);
    assert forall a, b :: !Edge(g, a, b);
    forall a, b ensures !Reaches(g, a, b) {
      if Reaches(g, a, b) {
        ReachesByAnEdge(g, a, b);
        assert false;
      }
    }
  }

  lemma ReachesByAnEdge(g: Graph, a: Id, b: Id)
    requires Reaches(g, a, b)
    ensures exists y :: Edge(g, a, y)
  {
    var p :| IsWalkBetween(g, p, a, b);
    assert Edge(g, p[0], p[1]);
  }

  /** Four ways to be let through: no wave at all, a name that is no number, two names for one number, a gap. */
  lemma WavesThatPass()
    ensures NotAdjacent("", "") && NotAdjacent("first", "second") && NotAdjacent("wave-0", "wave-00")
    ensures NotAdjacent("wave-0", "wave-2")
  {
    hide WaveIndex;
    WaveNames01();
    WaveName00();
    WaveName2();
    Unnumbered();
  }

  lemma Unnumbered()
    ensures WaveIndex("").None? && WaveIndex("first").None?
  {
    TrimNothing("", IsSpace);
    TrimNothing("first", IsSpace);
  }

  lemma WaveName2()
    ensures WaveIndex("wave-2") == Some(2)
  {
    hide WaveIndex;
    assert WaveName(2) == "wave-2";
    WaveIndexOfName(2);
  }

  lemma WaveName00()
    ensures WaveIndex("wave-00") == Some(0)
  {
    var name := "wave-00";
    TrimNothing(name, IsSpace);
    assert name[5..] == "00";
    assert "00"[..1] == "0" && "0"[..0] == "";
    assert Digits("00") == Some(0);
  }
}

/** Grouping tasks into waves: longest-chain depth first, then file conflicts pushed apart to a fixpoint. */
module Waves {
  import opened Sorting
  import opened Graphs
  import opened Paths
  import opened Tasks
  import opened WaveLayout
  import opened Conflicts
  import opened Cascade

  // ----- the abstract process on wave numbers -----

  function Level(w: map<Id, nat>, k: nat): set<Id> {
    set id | id in w && w[id] == k
  }

  /** Depths with the gaps between them closed up. */
  ghost predicate IsStart(g: Graph, w: map<Id, nat>) {
    && w.Keys == g.Keys
    && (forall a, b {:trigger w[a], w[b]} | a in w && b in w :: w[a] < w[b] <==> Depth(g, a) < Depth(g, b))
    && (forall a | a in w && w[a] > 0 :: Holds(w, w[a] - 1))
  }

  lemma {:induction false} StartContained(g: Graph, v: map<Id, nat>, w: map<Id, nat>, a: Id)
    requires IsStart(g, v) && IsStart(g, w) && a in v
    ensures v[a] <= w[a]
    decreases v[a]
  {
    if v[a] > 0 {
      assert Holds(v, v[a] - 1);
      var b :| b in v && v[b] == v[a] - 1;
      StartContained(g, v, w, b);
      assert v[b] < v[a] && w[b] < w[a];
    }
  }

  lemma StartUnique(g: Graph, v: map<Id, nat>, w: map<Id, nat>)
    requires IsStart(g, v) && IsStart(g, w)
    ensures v == w
  {
    forall a | a in v ensures v[a] == w[a] {
      StartContained(g, v, w, a);
      StartContained(g, w, v, a);
    }
  }

  /** No wave before wave `n` has a conflict. */
  ghost predicate FreeBelow(taskMap: map<Id, Task>, w: map<Id, nat>, n: nat) {
    forall k: nat | k < n :: ConflictFree(Level(w, k), taskMap)
  }

  /** The move the scheduler makes at `w`: out of the first wave with a conflict goes the chosen task,
      and with it exactly the tasks that must follow. */
  ghost predicate Moves(taskMap: map<Id, Task>, order: map<Id, nat>, w: map<Id, nat>, m: Id, s: set<Id>) {
    && m in w
    && FreeBelow(taskMap, w, w[m])
    && ChosenToMove(Level(w, w[m]), taskMap, order, m)
    && ForcedBy(DepsOf(taskMap), w, m, s)
  }

  ghost predicate Step(taskMap: map<Id, Task>, order: map<Id, nat>, w: map<Id, nat>, w': map<Id, nat>) {
    exists m, s :: Moves(taskMap, order, w, m, s) && w' == Bump(w, s)
  }

  ghost predicate Settled(taskMap: map<Id, Task>, w: map<Id, nat>) {
    forall k: nat :: ConflictFree(Level(w, k), taskMap)
  }

  lemma ChosenHasRival(members: set<Id>, taskMap: map<Id, Task>, order: map<Id, nat>, m: Id)
    requires ChosenToMove(members, taskMap, order, m)
    ensures !ConflictFree(members, taskMap)
    ensures exists y :: y in members && Rival(taskMap, m, y)
  {
    var y :| y in Rivals(members, taskMap, m);
  }

  lemma MoveUnique(taskMap: map<Id, Task>, order: map<Id, nat>, w: map<Id, nat>, m: Id, s: set<Id>, n: Id, r: set<Id>)
    requires Moves(taskMap, order, w, m, s) && Moves(taskMap, order, w, n, r)
    requires Injective(order) && w.Keys <= order.Keys
    ensures m == n && s == r
  {
    ChosenHasRival(Level(w, w[m]), taskMap, order, m);
    ChosenHasRival(Level(w, w[n]), taskMap, order, n);
    assert w[m] == w[n];
    assert m in order && n in order;
    assert order[m] == order[n];
    ForcedUnique(DepsOf(taskMap), w, m, s, r);
  }

  /** The process is deterministic, and stops exactly at a conflict-free layout. */
  lemma StepUnique(taskMap: map<Id, Task>, order: map<Id, nat>, w: map<Id, nat>, v: map<Id, nat>, u: map<Id, nat>)
    requires Injective(order) && w.Keys <= order.Keys
    ensures Step(taskMap, order, w, v) && Step(taskMap, order, w, u) ==> v == u
    ensures Settled(taskMap, w) ==> !Step(taskMap, order, w, v)
  {
    if Step(taskMap, order, w, v) {
      var m, s :| Moves(taskMap, order, w, m, s) && v == Bump(w, s);
      ChosenHasRival(Level(w, w[m]), taskMap, order, m);
      if Step(taskMap, order, w, u) {
        var n, r :| Moves(taskMap, order, w, n, r) && u == Bump(w, r);
        MoveUnique(taskMap, order, w, m, s, n, r);
      }
    }
  }

  ghost predicate Run(taskMap: map<Id, Task>, order: map<Id, nat>, trace: seq<map<Id, nat>>) {
    && trace != []
    && (forall i | 0 <= i < |trace| :: trace[i].Keys == taskMap.Keys)
    && (forall i | 0 < i < |trace| :: Step(taskMap, order, trace[i - 1], trace[i]))
  }

  lemma RunTail(taskMap: map<Id, Task>, order: map<Id, nat>, trace: seq<map<Id, nat>>)
    requires Run(taskMap, order, trace) && |trace| > 1
    ensures Run(taskMap, order, trace[1..])
  {
    forall i | 0 < i < |trace[1..]| ensures Step(taskMap, order, trace[1..][i - 1], trace[1..][i]) {
      assert trace[1..][i] == trace[i + 1];
    }
  }

  /** Two complete runs from one start are the same run: the schedule is a function of the tasks. */
  lemma {:induction false} RunUnique(taskMap: map<Id, Task>, order: map<Id, nat>, a: seq<map<Id, nat>>,
                                     b: seq<map<Id, nat>>)
    requires Run(taskMap, order, a) && Run(taskMap, order, b) && a[0] == b[0]
    requires Settled(taskMap, a[|a| - 1]) && Settled(taskMap, b[|b| - 1])
    requires Injective(order) && taskMap.Keys <= order.Keys
    ensures a == b
  {
    hide Step, Settled, Injective;
    if |a| == 1 || |b| == 1 {
      if |b| > 1 { StepUnique(taskMap, order, a[0], b[1], b[1]); }
      if |a| > 1 { StepUnique(taskMap, order, b[0], a[1], a[1]); }
    } else {
      StepUnique(taskMap, order, a[0], a[1], b[1]);
      RunTail(taskMap, order, a);
      RunTail(taskMap, order, b);
      RunUnique(taskMap, order, a[1..], b[1..]);
      assert a == [a[0]] + a[1..] && b == [b[0]] + b[1..];
    }
  }

  // ----- termination -----

  /** Sum over the tasks of the room left below wave `n`. */
  function Slack(ids: seq<Id>, w: map<Id, nat>, n: nat): nat {
    if ids == [] then 0
    else
      var id := ids[|ids| - 1];
      Slack(ids[..|ids| - 1], w, n) + (if id in w && w[id] < n then n - w[id] else 0)
  }

  lemma {:induction false} SlackFalls(ids: seq<Id>, w: map<Id, nat>, v: map<Id, nat>, n: nat)
    requires w.Keys == v.Keys && forall id | id in w :: w[id] <= v[id]
    ensures Slack(ids, v, n) <= Slack(ids, w, n)
    ensures (exists id :: id in ids && id in w && w[id] < v[id] <= n) ==> Slack(ids, v, n) < Slack(ids, w, n)
  {
    if ids != [] {
      assert ids == ids[..|ids| - 1] + [ids[|ids| - 1]];
      SlackFalls(ids[..|ids| - 1], w, v, n);
    }
  }

  /** As no wave is empty, there are never more waves than tasks. */
  lemma {:induction false} FullBounds(w: map<Id, nat>, n: nat)
    requires Full(w, n)
    ensures n <= |w|
  {
    if n > 0 {
      assert Holds(w, n - 1);
      var id :| id in w && w[id] == n - 1;
      var v := map x | x in w && w[x] < n - 1 :: w[x];
      forall k | 0 <= k < n - 1 ensures Holds(v, k) {
        assert Holds(w, k);
        var x :| x in w && w[x] == k;
        assert x in v;
      }
      FullBounds(v, n - 1);
      assert v.Keys <= w.Keys - {id};
      assert |v.Keys| <= |w.Keys - {id}| by {
        assert w.Keys - {id} == v.Keys + (w.Keys - {id} - v.Keys);
      }
    }
  }

  // ----- groupByDepth -----

  /** The tasks of one depth, in input order. */
  function Layer(tasks: seq<Task>, depth: map<Id, nat>, d: nat): seq<Id> {
    if tasks == [] then []
    else
      var front, id := Layer(tasks[..|tasks| - 1], depth, d), tasks[|tasks| - 1].id;
      if id in depth && depth[id] == d then front + [id] else front
  }

  lemma {:induction false} LayerMembers(tasks: seq<Task>, depth: map<Id, nat>, d: nat)
    ensures forall id :: id in Layer(tasks, depth, d) <==> id in Ids(tasks) && id in depth && depth[id] == d
  {
    if tasks != [] {
      var front, last := tasks[..|tasks| - 1], tasks[|tasks| - 1].id;
      LayerMembers(front, depth, d);
      assert Ids(tasks) == Ids(front) + [last];
    }
  }

  lemma {:induction false} LayerInOrder(tasks: seq<Task>, depth: map<Id, nat>, d: nat, order: map<Id, nat>)
    requires forall i | 0 <= i < |tasks| :: tasks[i].id in order && order[tasks[i].id] == i
    ensures InOrder(Layer(tasks, depth, d), order)
    ensures forall id | id in Layer(tasks, depth, d) :: id in order && order[id] < |tasks|
  {
    if tasks != [] {
      var front := tasks[..|tasks| - 1];
      LayerInOrder(front, depth, d, order);
      var kept := Layer(front, depth, d);
      forall i | 0 <= i < |kept| ensures order[kept[i]] < |front| {
        assert kept[i] in kept;
      }
    }
  }

  /** What `groupByDepth` returns: one wave per depth that occurs, named after it, in depth order. */
  ghost predicate Grouped(tasks: seq<Task>, depth: map<Id, nat>, waves: seq<Wave>, levels: seq<nat>) {
    && |levels| == |waves|
    && (forall i, j | 0 <= i < j < |levels| :: levels[i] < levels[j])
    && (forall k | 0 <= k < |waves| :: waves[k] == Wave(WaveName(levels[k]), Layer(tasks, depth, levels[k])))
    && (forall k | 0 <= k < |waves| :: waves[k].tasks != [])
  }

  /** The first `n` tasks are filed under their depths. */
  ghost predicate ByDepth(tasks: seq<Task>, depth: map<Id, nat>, n: nat, byDepth: map<nat, seq<Id>>)
    requires n <= |tasks|
  {
    forall d: nat ::
      if d in byDepth then byDepth[d] == Layer(tasks[..n], depth, d) != [] else Layer(tasks[..n], depth, d) == []
  }

  lemma ByDepthNext(tasks: seq<Task>, depth: map<Id, nat>, n: nat, byDepth: map<nat, seq<Id>>)
    requires n < |tasks| && tasks[n].id in depth && ByDepth(tasks, depth, n, byDepth)
    ensures var d := depth[tasks[n].id];
            ByDepth(tasks, depth, n + 1, byDepth[d := (if d in byDepth then byDepth[d] else []) + [tasks[n].id]])
  {
    assert tasks[..n + 1][..n] == tasks[..n];
  }

  method FileByDepth(tasks: seq<Task>, depth: map<Id, nat>) returns (tasksByDepth: map<nat, seq<Id>>, maxDepth: nat)
    requires forall i | 0 <= i < |tasks| :: tasks[i].id in depth
    ensures ByDepth(tasks, depth, |tasks|, tasksByDepth)
    ensures forall i | 0 <= i < |tasks| :: depth[tasks[i].id] <= maxDepth && depth[tasks[i].id] in tasksByDepth
  {
    tasksByDepth := map[];
    maxDepth := 0;
    assert tasks[..0] == [];
    assert ByDepth(tasks, depth, 0, tasksByDepth);
    hide ByDepth;
    for i := 0 to |tasks|
      invariant ByDepth(tasks, depth, i, tasksByDepth)
      invariant forall j | 0 <= j < i :: depth[tasks[j].id] <= maxDepth && depth[tasks[j].id] in tasksByDepth
    {
      ByDepthNext(tasks, depth, i, tasksByDepth);
      var d := depth[tasks[i].id];
      tasksByDepth := tasksByDepth[d := (if d in tasksByDepth then tasksByDepth[d] else []) + [tasks[i].id]];
      if d > maxDepth {
        maxDepth := d;
      }
    }
  }

  /** `Grouped`, as far as the depths below `d`. */
  ghost predicate GroupedBelow(tasks: seq<Task>, depth: map<Id, nat>, waves: seq<Wave>, levels: seq<nat>, d: nat) {
    Grouped(tasks, depth, waves, levels) && forall k | 0 <= k < |levels| :: levels[k] < d
  }

  lemma GroupedNext(tasks: seq<Task>, depth: map<Id, nat>, waves: seq<Wave>, levels: seq<nat>, d: nat)
    requires GroupedBelow(tasks, depth, waves, levels, d)
    ensures GroupedBelow(tasks, depth, waves, levels, d + 1)
    ensures Layer(tasks, depth, d) != [] ==>
              GroupedBelow(tasks, depth, waves + [Wave(WaveName(d), Layer(tasks, depth, d))], levels + [d], d + 1)
  {
    hide Layer, WaveName;
  }

  method GroupByDepth(tasks: seq<Task>, depth: map<Id, nat>) returns (waves: seq<Wave>, ghost levels: seq<nat>)
    requires forall i | 0 <= i < |tasks| :: tasks[i].id in depth
    ensures Grouped(tasks, depth, waves, levels)
    ensures forall i | 0 <= i < |tasks| :: depth[tasks[i].id] in levels
  {
    var tasksByDepth, maxDepth := FileByDepth(tasks, depth);
    waves, levels := [], [];
    assert tasks[..|tasks|] == tasks;
    assert GroupedBelow(tasks, depth, waves, levels, 0);
    hide Layer, Grouped, WaveName;
    for d := 0 to maxDepth + 1
      invariant GroupedBelow(tasks, depth, waves, levels, d)
      invariant forall e: nat | e < d && e in tasksByDepth :: e in levels
    {
      GroupedNext(tasks, depth, waves, levels, d);
      hide GroupedBelow;
      if d in tasksByDepth {
        waves := waves + [Wave(WaveName(d), tasksByDepth[d])];
        levels := levels + [d];
      }
    }
  }

  /** One of the first `n` tasks is `d` and lists `t`. */
  ghost predicate Lists(tasks: seq<Task>, n: nat, d: Id, t: Id) {
    exists k | 0 <= k < n && k < |tasks| :: tasks[k].id == d && t in tasks[k].dependsOn
  }

  lemma ListsNext(tasks: seq<Task>, n: nat, d: Id, t: Id)
    requires n < |tasks|
    ensures Lists(tasks, n + 1, d, t) <==> Lists(tasks, n, d, t) || (tasks[n].id == d && t in tasks[n].dependsOn)
  {
  }

  lemma ListsIsEdge(tasks: seq<Task>, d: Id, t: Id)
    requires UniqueIds(tasks)
    ensures Lists(tasks, |tasks|, d, t) <==> Edge(GraphOf(tasks), d, t)
  {
    TablesOfUnique(tasks);
    if Edge(GraphOf(tasks), d, t) {
      var k := Order(tasks)[d];
      assert tasks[k].id == d && t in tasks[k].dependsOn;
    }
  }

  predicate InReverse(reverse: map<Id, seq<Id>>, d: Id, t: Id) {
    t in reverse && d in reverse[t]
  }

  /** The table lists the dependencies of the first `i` tasks, and the first `j` of the next. */
  ghost predicate Reversed(tasks: seq<Task>, reverse: map<Id, seq<Id>>, i: nat, j: nat)
    requires i <= |tasks| && (i < |tasks| ==> j <= |tasks[i].dependsOn|)
  {
    forall d, t :: InReverse(reverse, d, t) <==>
                   Lists(tasks, i, d, t) || (i < |tasks| && d == tasks[i].id && t in tasks[i].dependsOn[..j])
  }

  lemma ReversedStart(tasks: seq<Task>)
    ensures Reversed(tasks, map[], 0, 0)
  {
    assert |tasks| > 0 ==> tasks[0].dependsOn[..0] == [];
  }

  lemma ReversedNext(tasks: seq<Task>, reverse: map<Id, seq<Id>>, i: nat, j: nat)
    requires i < |tasks| && j < |tasks[i].dependsOn| && Reversed(tasks, reverse, i, j)
    ensures var dep := tasks[i].dependsOn[j];
            Reversed(tasks, reverse[dep := (if dep in reverse then reverse[dep] else []) + [tasks[i].id]], i, j + 1)
  {
    var deps, dep, id := tasks[i].dependsOn, tasks[i].dependsOn[j], tasks[i].id;
    var next := reverse[dep := (if dep in reverse then reverse[dep] else []) + [id]];
    assert deps[..j + 1] == deps[..j] + [dep];
    hide Lists;
    forall d, t ensures InReverse(next, d, t) <==> Lists(tasks, i, d, t) || (d == id && t in deps[..j + 1]) {
      assert InReverse(reverse, d, t) <==> Lists(tasks, i, d, t) || (d == id && t in deps[..j]);
      assert InReverse(next, d, t) <==> InReverse(reverse, d, t) || (d == id && t == dep);
    }
  }

  lemma ReversedRow(tasks: seq<Task>, reverse: map<Id, seq<Id>>, i: nat)
    requires i < |tasks| && Reversed(tasks, reverse, i, |tasks[i].dependsOn|)
    ensures Reversed(tasks, reverse, i + 1, 0)
  {
    var deps := tasks[i].dependsOn;
    assert deps[..|deps|] == deps;
    assert i + 1 < |tasks| ==> tasks[i + 1].dependsOn[..0] == [];
    forall d, t ensures InReverse(reverse, d, t) <==> Lists(tasks, i + 1, d, t) {
      ListsNext(tasks, i, d, t);
    }
    hide Lists, InReverse;
  }

  /** The entries of every list stand in input order. */
  ghost predicate ListsInOrder(reverse: map<Id, seq<Id>>, order: map<Id, nat>) {
    forall t | t in reverse :: NeverBack(reverse[t], order)
  }

  ghost predicate NeverBack(ids: seq<Id>, order: map<Id, nat>) {
    && (forall i | 0 <= i < |ids| :: ids[i] in order)
    && (forall i, j | 0 <= i < j < |ids| :: order[ids[i]] <= order[ids[j]])
  }

  function ByOrder(order: map<Id, nat>): (Id, Id) -> bool {
    (a, b) => a in order && b in order && order[a] < order[b]
  }

  lemma ByOrderIsTotal(order: map<Id, nat>, ids: seq<Id>)
    requires Injective(order) && forall id | id in ids :: id in order
    ensures StrictTotalOn(ByOrder(order), multiset(ids))
  {
    forall id | id in multiset(ids) ensures id in order {
      assert id in ids;
    }
  }

  lemma SortedNeverBack(ids: seq<Id>, order: map<Id, nat>)
    requires Injective(order) && forall id | id in ids :: id in order
    ensures NeverBack(SortBy(ByOrder(order), ids), order)
  {
    hide SortBy, StrictTotalOn, Injective;
    ByOrderIsTotal(order, ids);
    SortBySorts(ByOrder(order), ids);
    var s := SortBy(ByOrder(order), ids);
    forall i | 0 <= i < |s| ensures s[i] in order {
      assert s[i] in multiset(s);
      assert s[i] in ids;
    }
    forall i, j | 0 <= i < j < |s| ensures order[s[i]] <= order[s[j]] {
      assert !ByOrder(order)(s[j], s[i]);
    }
  }

  lemma ReversedInOrder(tasks: seq<Task>, reverse: map<Id, seq<Id>>)
    requires UniqueIds(tasks) && Reversed(tasks, reverse, |tasks|, 0)
    ensures ListsInOrder(map t | t in reverse :: SortBy(ByOrder(Order(tasks)), reverse[t]), Order(tasks))
  {
    OrderInjective(tasks);
    TableEntries(tasks);
    forall t | t in reverse ensures NeverBack(SortBy(ByOrder(Order(tasks)), reverse[t]), Order(tasks)) {
      forall d | d in reverse[t] ensures d in Order(tasks) {
        assert InReverse(reverse, d, t);
      }
      SortedNeverBack(reverse[t], Order(tasks));
    }
  }

  /** `buildReverseDeps`: the dependents of each ID, in input order. */
  method BuildReverseDeps(tasks: seq<Task>, order: map<Id, nat>) returns (reverse: map<Id, seq<Id>>)
    requires UniqueIds(tasks) && order == Order(tasks)
    ensures IsReverse(GraphOf(tasks), reverse) && ListsInOrder(reverse, order)
  {
    hide UniqueIds, IsReverse, GraphOf, SortBy, Lists, Order, ListsInOrder, ByOrder;
    reverse := map[];
    hide Reversed;
    ReversedStart(tasks);
    for i := 0 to |tasks|
      invariant Reversed(tasks, reverse, i, 0)
    {
      var deps := tasks[i].dependsOn;
      for j := 0 to |deps|
        invariant Reversed(tasks, reverse, i, j)
      {
        ReversedNext(tasks, reverse, i, j);
        var dep := deps[j];
        reverse := reverse[dep := (if dep in reverse then reverse[dep] else []) + [tasks[i].id]];
      }
      ReversedRow(tasks, reverse, i);
    }
    ReversedIsReverse(tasks, reverse, ByOrder(order));
    ReversedInOrder(tasks, reverse);
    reverse := map t | t in reverse :: SortBy(ByOrder(order), reverse[t]);
  }

  lemma ReversedIsReverse(tasks: seq<Task>, reverse: map<Id, seq<Id>>, byOrder: (Id, Id) -> bool)
    requires UniqueIds(tasks) && Reversed(tasks, reverse, |tasks|, 0)
    ensures IsReverse(GraphOf(tasks), map t | t in reverse :: SortBy(byOrder, reverse[t]))
  {
    var sorted := map t | t in reverse :: SortBy(byOrder, reverse[t]);
    forall d, t ensures Edge(GraphOf(tasks), d, t) <==> t in sorted && d in sorted[t] {
      ListsIsEdge(tasks, d, t);
      assert InReverse(reverse, d, t) <==> Edge(GraphOf(tasks), d, t);
      if t in reverse {
        assert d in sorted[t] <==> d in multiset(sorted[t]);
        assert d in reverse[t] <==> d in multiset(reverse[t]);
      }
    }
    assert IsReverse(GraphOf(tasks), sorted);
  }

  // ----- resolveConflicts -----

  /** `waves` lays the tasks out as `w` says, in dependency order, with no empty wave. */
  ghost predicate Laid(taskMap: map<Id, Task>, order: map<Id, nat>, waves: seq<Wave>, w: map<Id, nat>) {
    && w.Keys == taskMap.Keys
    && Placed(waves, w, order)
    && Full(w, |waves|)
    && Ordered(DepsOf(taskMap), w)
  }

  lemma LevelIsWave(waves: seq<Wave>, w: map<Id, nat>, order: map<Id, nat>, k: nat)
    requires Placed(waves, w, order) && k < |waves|
    ensures SetOf(waves[k].tasks) == Level(w, k)
    ensures forall a, b | 0 <= a < b < |waves[k].tasks| :: waves[k].tasks[a] != waves[k].tasks[b]
  {
    assert InOrder(waves[k].tasks, order);
  }

  /** The task `selectConflictTaskToMove` picks from the conflicts of a wave is the chosen one. */
  lemma SelectedIsChosen(ids: seq<Id>, taskMap: map<Id, Task>, order: map<Id, nat>, conflicts: seq<FileConflict>, m: Id)
    requires Genuine(conflicts, ids, taskMap)
    requires forall x | x in ids :: NamesOf(conflicts)[x] == |Rivals(SetOf(ids), taskMap, x)|
    requires m in NamesOf(conflicts) && forall x | x in NamesOf(conflicts) :: x in order
    requires forall x | x in NamesOf(conflicts) ::
               NamesOf(conflicts)[x] < NamesOf(conflicts)[m]
               || (NamesOf(conflicts)[x] == NamesOf(conflicts)[m] && order[x] <= order[m])
    ensures ChosenToMove(SetOf(ids), taskMap, order, m)
  {
    NamesAreMembers(conflicts, ids, taskMap);
    var members := SetOf(ids);
    assert |Rivals(members, taskMap, m)| > 0;
    forall x | x in members && x in order
      ensures |Rivals(members, taskMap, x)| < |Rivals(members, taskMap, m)|
              || (|Rivals(members, taskMap, x)| == |Rivals(members, taskMap, m)| && order[x] <= order[m])
    {
      assert NamesOf(conflicts)[x] == |Rivals(members, taskMap, x)|;
    }
  }

  lemma {:induction false} NamesAreMembers(conflicts: seq<FileConflict>, ids: seq<Id>, taskMap: map<Id, Task>)
    requires Genuine(conflicts, ids, taskMap)
    ensures forall x | x in NamesOf(conflicts) :: x in ids
  {
    if conflicts != [] {
      assert conflicts[|conflicts| - 1] in conflicts;
      NamesAreMembers(conflicts[..|conflicts| - 1], ids, taskMap);
    }
  }

  /** `resolveConflicts`: one step of the abstract process. */
  method ResolveConflicts(waves: seq<Wave>, waveIndex: nat, conflicts: seq<FileConflict>, reverse: map<Id, seq<Id>>,
                          order: map<Id, nat>, ghost taskMap: map<Id, Task>, ghost w: map<Id, nat>)
    returns (r: seq<Wave>, ghost m: Id, ghost s: set<Id>)
    requires Injective(order) && taskMap.Keys <= order.Keys
    requires Laid(taskMap, order, waves, w) && waveIndex < |waves|
    requires IsReverse(DepsOf(taskMap), reverse)
    requires |conflicts| > 0 && Genuine(conflicts, waves[waveIndex].tasks, taskMap)
    requires forall x | x in waves[waveIndex].tasks ::
               NamesOf(conflicts)[x] == |Rivals(SetOf(waves[waveIndex].tasks), taskMap, x)|
    requires FreeBelow(taskMap, w, waveIndex)
    ensures Moves(taskMap, order, w, m, s)
    ensures Laid(taskMap, order, r, Bump(w, s)) && NamesExtend(waves, r)
  {
    hide Placed, Ordered, Rival, Rivals, Genuine, NamesOf, ChosenToMove, Injective, IsReverse, ConflictFree, ForcedBy;
    hide Full, FreeBelow, NamesExtend, Bump, Reached;
    ghost var ids := waves[waveIndex].tasks;
    LevelIsWave(waves, w, order, waveIndex);
    NamesAreMembers(conflicts, ids, taskMap);
    forall x | x in NamesOf(conflicts) ensures x in order && x in w && w[x] == waveIndex {
      assert x in SetOf(ids);
    }
    var moved := SelectConflictTaskToMove(conflicts, order);
    SelectedIsChosen(ids, taskMap, order, conflicts, moved);
    m := moved;
    r := MoveTaskToWave(waves, moved, waveIndex + 1, order, w);
    MovedIsReached(waves, r, w, m, order);
    r, s := CascadeDependents(r, moved, reverse, order, waves, DepsOf(taskMap), w);
    ResolvedIsLaid(taskMap, order, waves, w, m, s, r);
  }

  lemma MovedIsReached(waves: seq<Wave>, r: seq<Wave>, w: map<Id, nat>, m: Id, order: map<Id, nat>)
    requires Placed(waves, w, order) && m in w && NamesExtend(waves, r)
    requires Placed(r, w[m := w[m] + 1], order) && |r| == if |waves| <= w[m] + 1 then w[m] + 2 else |waves|
    ensures Reached(waves, r, w, {m}, order)
  {
    hide Placed, NamesExtend;
    PlacedBound(waves, w, order);
    assert w[m := w[m] + 1] == Bump(w, {m});
    if |r| > |waves| {
      assert m in Bump(w, {m}) && Bump(w, {m})[m] == |waves|;
    }
  }

  lemma ResolvedIsLaid(taskMap: map<Id, Task>, order: map<Id, nat>, waves: seq<Wave>, w: map<Id, nat>,
                       m: Id, s: set<Id>, r: seq<Wave>)
    requires Laid(taskMap, order, waves, w)
    requires m in w && ChosenToMove(Level(w, w[m]), taskMap, order, m)
    requires ForcedBy(DepsOf(taskMap), w, m, s) && Reached(waves, r, w, s, order)
    ensures Laid(taskMap, order, r, Bump(w, s)) && NamesExtend(waves, r)
  {
    hide Placed, ForcedBy, Ordered, Clash, ChosenToMove, NamesExtend;
    var g := DepsOf(taskMap);
    BumpKeepsOrder(g, w, m, s);
    ChosenHasRival(Level(w, w[m]), taskMap, order, m);
    var other :| other in Level(w, w[m]) && Rival(taskMap, m, other);
    PlacedBound(r, Bump(w, s), order);
    forall id | id in w ensures Bump(w, s)[id] < |r| {
      assert id in Bump(w, s);
    }
    if |r| == |waves| + 1 {
      assert Holds(Bump(w, s), |waves|);
      var id :| id in Bump(w, s) && Bump(w, s)[id] == |waves|;
    }
    BumpKeepsFull(g, w, |waves|, m, s, other, |r|);
  }

  // ----- ComputeWaves -----

  /** What a reader of the waves can rely on. */
  ghost predicate Schedule(tasks: seq<Task>, waves: seq<Wave>) {
    && (forall k | 0 <= k < |waves| :: waves[k].tasks != [] && InOrder(waves[k].tasks, Order(tasks)))
    && (forall i | 0 <= i < |tasks| :: exists k | 0 <= k < |waves| :: tasks[i].id in waves[k].tasks)
    && (forall j, k, id | 0 <= j < k < |waves| && id in waves[j].tasks :: id !in waves[k].tasks)
    && (forall j, k, d, t {:trigger d in waves[j].tasks, t in waves[k].tasks} |
          0 <= j < |waves| && 0 <= k < |waves| && d in waves[j].tasks && t in waves[k].tasks
          && Edge(GraphOf(tasks), d, t) :: k < j)
    && (forall k, a, b {:trigger a in waves[k].tasks, b in waves[k].tasks} |
          0 <= k < |waves| && a in waves[k].tasks && b in waves[k].tasks && a != b ::
          !Rival(TaskMap(tasks), a, b))
  }

  /** `trace` is the complete run of the abstract process from the depths of the tasks. */
  ghost predicate CompleteRun(tasks: seq<Task>, trace: seq<map<Id, nat>>) {
    && trace != []
    && Run(TaskMap(tasks), Order(tasks), trace)
    && IsStart(GraphOf(tasks), trace[0])
    && Settled(TaskMap(tasks), trace[|trace| - 1])
  }

  /** `waves` is the layout a complete run ends in. */
  ghost predicate Computed(tasks: seq<Task>, waves: seq<Wave>) {
    exists trace :: CompleteRun(tasks, trace)
                    && Laid(TaskMap(tasks), Order(tasks), waves, trace[|trace| - 1])
  }

  lemma OrderInjective(tasks: seq<Task>)
    ensures Injective(Order(tasks)) && TaskMap(tasks).Keys == Order(tasks).Keys
  {
    TableEntries(tasks);
  }

  lemma CompleteRunsNotEmpty(tasks: seq<Task>)
    ensures forall trace | CompleteRun(tasks, trace) :: trace != []
  {
  }

  lemma CompleteRunUnique(tasks: seq<Task>, p: seq<map<Id, nat>>, q: seq<map<Id, nat>>)
    requires CompleteRun(tasks, p) && CompleteRun(tasks, q)
    ensures p == q
  {
    OrderInjective(tasks);
    hide IsStart, Run, Settled, Injective;
    StartUnique(GraphOf(tasks), p[0], q[0]);
    RunUnique(TaskMap(tasks), Order(tasks), p, q);
  }

  lemma LaidUnique(taskMap: map<Id, Task>, order: map<Id, nat>, w: map<Id, nat>, a: seq<Wave>, b: seq<Wave>)
    requires Laid(taskMap, order, a, w) && Laid(taskMap, order, b, w) && Injective(order)
    ensures |a| == |b| && forall k | 0 <= k < |a| :: a[k].tasks == b[k].tasks
  {
    hide Placed, Full, Ordered, Injective;
    FullUnique(w, |a|, |b|);
    forall k | 0 <= k < |a| ensures a[k].tasks == b[k].tasks {
      PlacedUnique(a, b, w, order, k);
    }
  }

  /** The waves of a task list are unique: same number, same tasks in the same order in each. */
  lemma ComputedUnique(tasks: seq<Task>, a: seq<Wave>, b: seq<Wave>)
    requires Computed(tasks, a) && Computed(tasks, b)
    ensures |a| == |b| && forall k | 0 <= k < |a| :: a[k].tasks == b[k].tasks
  {
    hide CompleteRun, Laid, Injective;
    CompleteRunsNotEmpty(tasks);
    OrderInjective(tasks);
    var p :| CompleteRun(tasks, p) && Laid(TaskMap(tasks), Order(tasks), a, p[|p| - 1]);
    var q :| CompleteRun(tasks, q) && Laid(TaskMap(tasks), Order(tasks), b, q[|q| - 1]);
    CompleteRunUnique(tasks, p, q);
    LaidUnique(TaskMap(tasks), Order(tasks), p[|p| - 1], a, b);
  }

  lemma FullUnique(w: map<Id, nat>, m: nat, n: nat)
    requires Full(w, m) && Full(w, n)
    ensures m == n
  {
    assert m < n ==> Holds(w, m);
    assert n < m ==> Holds(w, n);
  }

  lemma SettledBelow(taskMap: map<Id, Task>, order: map<Id, nat>, waves: seq<Wave>, w: map<Id, nat>)
    requires Laid(taskMap, order, waves, w)
    requires FreeBelow(taskMap, w, |waves|)
    ensures Settled(taskMap, w)
  {
    hide Placed, Ordered;
    forall k: nat ensures ConflictFree(Level(w, k), taskMap) {
      if k >= |waves| { assert Level(w, k) == {}; }
    }
  }

  lemma PlacedApart(waves: seq<Wave>, w: map<Id, nat>, order: map<Id, nat>, g: Graph)
    requires Placed(waves, w, order) && Ordered(g, w)
    ensures forall j, k, id | 0 <= j < k < |waves| && id in waves[j].tasks :: id !in waves[k].tasks
    ensures forall j, k, d, t {:trigger d in waves[j].tasks, t in waves[k].tasks} |
              0 <= j < |waves| && 0 <= k < |waves| && d in waves[j].tasks && t in waves[k].tasks
              && Edge(g, d, t) :: k < j
  {
    hide InOrder;
  }

  lemma PlacedMembers(waves: seq<Wave>, w: map<Id, nat>, order: map<Id, nat>)
    requires Placed(waves, w, order) && Full(w, |waves|)
    ensures forall k | 0 <= k < |waves| :: waves[k].tasks != [] && InOrder(waves[k].tasks, order)
    ensures forall id | id in w :: exists k :: 0 <= k < |waves| && id in waves[k].tasks
    ensures forall k, id {:trigger id in waves[k].tasks} |
              0 <= k < |waves| && id in waves[k].tasks :: id in Level(w, k)
  {
    hide InOrder;
    forall k: nat | k < |waves| ensures waves[k].tasks != [] {
      assert Holds(w, k);
      var id :| id in w && w[id] == k;
      assert id in waves[w[id]].tasks;
    }
  }

  /** Laid out and settled is what `Schedule` says in terms of the lists. */
  lemma SettledHasNoRivals(tasks: seq<Task>, waves: seq<Wave>, w: map<Id, nat>, k: nat, a: Id, b: Id)
    requires Settled(TaskMap(tasks), w) && k < |waves| && a in Level(w, k) && b in Level(w, k)
    ensures !Rival(TaskMap(tasks), a, b)
  {
    hide Level, Rival, TaskMap;
    assert ConflictFree(Level(w, k), TaskMap(tasks));
  }

  lemma LaidIsSchedule(tasks: seq<Task>, waves: seq<Wave>, w: map<Id, nat>)
    requires Laid(TaskMap(tasks), Order(tasks), waves, w) && Settled(TaskMap(tasks), w)
    ensures Schedule(tasks, waves)
  {
    hide Rival, Placed, Ordered, Full, InOrder, Edge, Settled, TaskMap, Order, Level, GraphOf;
    assert forall i | 0 <= i < |tasks| :: tasks[i].id in w by { TableEntries(tasks); }
    GraphOfIsDeps(tasks);
    PlacedApart(waves, w, Order(tasks), GraphOf(tasks));
    PlacedMembers(waves, w, Order(tasks));
    forall i | 0 <= i < |tasks| ensures exists k | 0 <= k < |waves| :: tasks[i].id in waves[k].tasks {
      assert tasks[i].id in w;
    }
    forall k, a, b {:trigger a in waves[k].tasks, b in waves[k].tasks} |
      0 <= k < |waves| && a in waves[k].tasks && b in waves[k].tasks && a != b
      ensures !Rival(TaskMap(tasks), a, b)
    {
      SettledHasNoRivals(tasks, waves, w, k, a, b);
    }
    assert forall j, k, id | 0 <= j < k < |waves| && id in waves[j].tasks :: id !in waves[k].tasks;
  }

  /** Two tasks that touch overlapping paths are in no wave together. */
  lemma OverlapSeparates(tasks: seq<Task>, waves: seq<Wave>, i: nat, j: nat, p: string, q: string, k: nat)
    requires Schedule(tasks, waves) && UniqueIds(tasks) && i < |tasks| && j < |tasks| && i != j && k < |waves|
    requires Counts(tasks[i], p) && Counts(tasks[j], q) && Overlap(p, q)
    ensures !(tasks[i].id in waves[k].tasks && tasks[j].id in waves[k].tasks)
  {
    hide Overlap, Clash, InOrder;
    ClashIff(tasks[i], tasks[j]);
    TablesOfUnique(tasks);
    assert Rival(TaskMap(tasks), tasks[i].id, tasks[j].id);
    hide TaskMap, Order, GraphOf, Rival;
  }

  /** In particular a task on a directory, however many slashes it is written with, and one on anything below it. */
  lemma DirectorySeparates(tasks: seq<Task>, waves: seq<Wave>, i: nat, j: nat, a: string, p: string, b: string,
                           q: string, k: nat)
    requires Schedule(tasks, waves) && UniqueIds(tasks) && i < |tasks| && j < |tasks| && i != j && k < |waves|
    requires AllSlashes(a) && AllSlashes(b) && Clean(p) && p != ""
    requires Counts(tasks[i], a + p + b) && Counts(tasks[j], p + "/" + q)
    ensures !(tasks[i].id in waves[k].tasks && tasks[j].id in waves[k].tasks)
  {
    DirectoryOverlaps(a, p, b, q);
    hide Overlap, Schedule, Counts;
    OverlapSeparates(tasks, waves, i, j, a + p + b, p + "/" + q, k);
  }

  /** The depths that occur, in increasing order. */
  ghost predicate AreLevels(tasks: seq<Task>, levels: seq<nat>) {
    && (forall i, j | 0 <= i < j < |levels| :: levels[i] < levels[j])
    && (forall d :: d in levels <==> exists id :: id in TaskMap(tasks) && Depth(GraphOf(tasks), id) == d)
  }

  /** How waves are named: the first ones after the depth they started from, added ones after their index. */
  ghost predicate Titled(tasks: seq<Task>, waves: seq<Wave>, levels: seq<nat>) {
    && AreLevels(tasks, levels) && |levels| <= |waves|
    && (forall k | 0 <= k < |levels| :: waves[k].waveId == WaveName(levels[k]))
    && (forall k | |levels| <= k < |waves| :: waves[k].waveId == WaveName(k))
  }

  /** The wave numbers `groupByDepth` starts from. */
  function StartOf(taskMap: map<Id, Task>, depth: map<Id, nat>, levels: seq<nat>): map<Id, nat>
    requires forall id | id in taskMap :: id in depth && depth[id] in levels
  {
    map id | id in taskMap :: Position(levels, depth[id])
  }

  lemma GroupedHolds(tasks: seq<Task>, depth: map<Id, nat>, waves: seq<Wave>, levels: seq<nat>, w: map<Id, nat>, k: nat)
    requires UniqueIds(tasks)
    requires forall id | id in TaskMap(tasks) :: id in depth && depth[id] in levels
    requires Grouped(tasks, depth, waves, levels) && w == StartOf(TaskMap(tasks), depth, levels)
    requires k < |waves|
    ensures InOrder(waves[k].tasks, Order(tasks))
    ensures forall id :: id in waves[k].tasks <==> id in w && w[id] == k
    ensures Holds(w, k)
  {
    hide InOrder;
    TablesOfUnique(tasks);
    LayerInOrder(tasks, depth, levels[k], Order(tasks));
    LayerMembers(tasks, depth, levels[k]);
    forall id ensures id in waves[k].tasks <==> id in w && w[id] == k {
      if id in w {
        assert Ids(tasks)[Order(tasks)[id]] == id;
        assert levels[w[id]] == depth[id];
      }
    }
    assert waves[k].tasks[0] in waves[k].tasks;
  }

  lemma GroupedIsPlaced(tasks: seq<Task>, depth: map<Id, nat>, waves: seq<Wave>, levels: seq<nat>, w: map<Id, nat>)
    requires UniqueIds(tasks)
    requires forall id | id in TaskMap(tasks) :: id in depth && depth[id] in levels
    requires Grouped(tasks, depth, waves, levels) && w == StartOf(TaskMap(tasks), depth, levels)
    ensures Placed(waves, w, Order(tasks)) && Full(w, |waves|)
  {
    assert |levels| == |waves|;
    hide InOrder, Grouped;
    forall k: nat | k < |waves|
      ensures InOrder(waves[k].tasks, Order(tasks)) && Holds(w, k)
      ensures forall id :: id in waves[k].tasks <==> id in w && w[id] == k
    {
      GroupedHolds(tasks, depth, waves, levels, w, k);
    }
  }

  lemma StartOrder(levels: seq<nat>, i: nat, j: nat)
    requires forall i, j | 0 <= i < j < |levels| :: levels[i] < levels[j]
    requires i < |levels| && j < |levels|
    ensures i < j <==> levels[i] < levels[j]
  {
  }

  lemma StartFacts(g: Graph, taskMap: map<Id, Task>, depth: map<Id, nat>, levels: seq<nat>)
    requires MemoCorrect(g, depth)
    requires forall id | id in taskMap :: id in depth && depth[id] in levels
    ensures var w := StartOf(taskMap, depth, levels);
            w.Keys == taskMap.Keys && forall id | id in w :: w[id] < |levels| && levels[w[id]] == Depth(g, id)
  {
    hide Depth;
  }

  lemma GroupedIsStart(g: Graph, taskMap: map<Id, Task>, levels: seq<nat>, w: map<Id, nat>)
    requires g == DepsOf(taskMap) && Acyclic(g)
    requires w.Keys == taskMap.Keys && forall id | id in w :: w[id] < |levels| && levels[w[id]] == Depth(g, id)
    requires forall i, j | 0 <= i < j < |levels| :: levels[i] < levels[j]
    requires Full(w, |levels|)
    ensures IsStart(g, w) && Ordered(g, w)
  {
    hide Depth, Acyclic, Holds;
    forall a, b | a in w && b in w ensures w[a] < w[b] <==> Depth(g, a) < Depth(g, b) {
      StartOrder(levels, w[a], w[b]);
    }
    forall d, t | Edge(g, d, t) && d in w && t in w ensures w[t] < w[d] {
      DepthStep(g, d);
    }
  }

  lemma LevelsAreDepths(g: Graph, taskMap: map<Id, Task>, levels: seq<nat>, w: map<Id, nat>)
    requires w.Keys == taskMap.Keys && Full(w, |levels|)
    requires forall id | id in w :: levels[w[id]] == Depth(g, id)
    ensures forall d :: d in levels <==> exists id :: id in taskMap && Depth(g, id) == d
  {
    hide Depth;
    forall d ensures d in levels <==> exists id :: id in taskMap && Depth(g, id) == d {
      if d in levels {
        var k :| 0 <= k < |levels| && levels[k] == d;
        assert Holds(w, k);
        var id :| id in w && w[id] == k;
        assert Depth(g, id) == d;
      }
    }
  }

  lemma TasksHaveLevels(tasks: seq<Task>, depth: map<Id, nat>, levels: seq<nat>)
    requires forall i | 0 <= i < |tasks| :: tasks[i].id in depth && depth[tasks[i].id] in levels
    ensures forall id | id in TaskMap(tasks) :: id in depth && depth[id] in levels
  {
    TableEntries(tasks);
    forall id | id in TaskMap(tasks) ensures id in depth && depth[id] in levels {
      assert tasks[Order(tasks)[id]].id == id;
    }
  }

  lemma GroupedIsTitled(tasks: seq<Task>, depth: map<Id, nat>, waves: seq<Wave>, levels: seq<nat>)
    requires Grouped(tasks, depth, waves, levels) && AreLevels(tasks, levels)
    ensures Titled(tasks, waves, levels)
  {
    hide AreLevels, Layer, WaveName;
  }

  lemma GroupedRises(tasks: seq<Task>, depth: map<Id, nat>, waves: seq<Wave>, levels: seq<nat>)
    requires Grouped(tasks, depth, waves, levels)
    ensures |levels| == |waves| && forall i, j | 0 <= i < j < |levels| :: levels[i] < levels[j]
  {
  }

  lemma GraphOfIsDeps(tasks: seq<Task>)
    ensures GraphOf(tasks) == DepsOf(TaskMap(tasks))
  {
  }

  lemma GroupedIsLaid(tasks: seq<Task>, depth: map<Id, nat>, waves: seq<Wave>, levels: seq<nat>)
    returns (w: map<Id, nat>)
    requires UniqueIds(tasks) && Acyclic(GraphOf(tasks))
    requires MemoCorrect(GraphOf(tasks), depth)
    requires forall i | 0 <= i < |tasks| :: tasks[i].id in depth && depth[tasks[i].id] in levels
    requires Grouped(tasks, depth, waves, levels)
    ensures IsStart(GraphOf(tasks), w)
    ensures Laid(TaskMap(tasks), Order(tasks), waves, w)
    ensures Titled(tasks, waves, levels)
  {
    hide Placed, InOrder, Acyclic, MemoCorrect, IsStart, Ordered, Full, Edge, Depth, Grouped, Titled, AreLevels;
    hide UniqueIds, TaskMap, Order, StartOf, GraphOf;
    GroupedRises(tasks, depth, waves, levels);
    GraphOfIsDeps(tasks);
    TasksHaveLevels(tasks, depth, levels);
    w := StartOf(TaskMap(tasks), depth, levels);
    StartFacts(GraphOf(tasks), TaskMap(tasks), depth, levels);
    GroupedIsPlaced(tasks, depth, waves, levels, w);
    GroupedIsStart(GraphOf(tasks), TaskMap(tasks), levels, w);
    LevelsAreDepths(GraphOf(tasks), TaskMap(tasks), levels, w);
    AreTheLevels(tasks, levels);
    GroupedIsTitled(tasks, depth, waves, levels);
  }

  lemma AreTheLevels(tasks: seq<Task>, levels: seq<nat>)
    requires forall i, j | 0 <= i < j < |levels| :: levels[i] < levels[j]
    requires forall d :: d in levels <==> exists id :: id in TaskMap(tasks) && Depth(GraphOf(tasks), id) == d
    ensures AreLevels(tasks, levels)
  {
    hide Depth, TaskMap;
  }

  function Position(levels: seq<nat>, d: nat): (k: nat)
    requires d in levels
    ensures k < |levels| && levels[k] == d
  {
    if levels[0] == d then 0 else 1 + Position(levels[1..], d)
  }

  lemma RunExtends(taskMap: map<Id, Task>, order: map<Id, nat>, trace: seq<map<Id, nat>>, m: Id, s: set<Id>)
    requires Run(taskMap, order, trace) && Moves(taskMap, order, trace[|trace| - 1], m, s)
    ensures Run(taskMap, order, trace + [Bump(trace[|trace| - 1], s)])
  {
    hide Moves;
    var longer := trace + [Bump(trace[|trace| - 1], s)];
    forall i | 0 < i < |longer| ensures Step(taskMap, order, longer[i - 1], longer[i]) {
      if i < |trace| {
        assert longer[i - 1] == trace[i - 1] && longer[i] == trace[i];
      }
    }
  }

  /** Every conflict resolved uses up room: no wave is empty, so no task ever gets past wave n - 1. */
  lemma {:induction false} BumpLowersSlack(tasks: seq<Task>, taskMap: map<Id, Task>, order: map<Id, nat>,
                                           waves: seq<Wave>,
                        w: map<Id, nat>, m: Id, s: set<Id>)
    requires taskMap == TaskMap(tasks) && order == Order(tasks)
    requires m in w && m in s && Laid(taskMap, order, waves, Bump(w, s))
    ensures Slack(Ids(tasks), Bump(w, s), |taskMap|) < Slack(Ids(tasks), w, |taskMap|)
  {
    hide Placed, Ordered, TaskMap, Order;
    var v := Bump(w, s);
    FullBounds(v, |waves|);
    assert |v.Keys| == |taskMap.Keys|;
    assert w[m] < v[m] < |waves|;
    TableEntries(tasks);
    assert Ids(tasks)[Order(tasks)[m]] == m;
    SlackFalls(Ids(tasks), w, v, |taskMap|);
  }

  lemma FreeBelowNone(taskMap: map<Id, Task>, w: map<Id, nat>)
    ensures FreeBelow(taskMap, w, 0)
  {
  }

  /** Looks at one wave: it is conflict-free, or one move is made. */
  method ResolveWave(waves: seq<Wave>, i: nat, taskMap: map<Id, Task>, reverse: map<Id, seq<Id>>,
                     order: map<Id, nat>, ghost w: map<Id, nat>)
    returns (r: seq<Wave>, changed: bool, ghost m: Id, ghost s: set<Id>)
    requires Injective(order) && taskMap.Keys <= order.Keys && Filed(taskMap)
    requires IsReverse(DepsOf(taskMap), reverse)
    requires Laid(taskMap, order, waves, w) && i < |waves|
    requires FreeBelow(taskMap, w, i)
    ensures !changed ==> r == waves && FreeBelow(taskMap, w, i + 1)
    ensures changed ==> m in w && m in s && Moves(taskMap, order, w, m, s)
    ensures changed ==> Laid(taskMap, order, r, Bump(w, s)) && NamesExtend(waves, r)
  {
    hide Placed, Ordered, Rival, Rivals, IsReverse, ConflictFree, Moves, Injective, Filed, Genuine, Full, NamesExtend;
    LevelIsWave(waves, w, order, i);
    r, changed, m, s := waves, false, "", {};
    var conflicts := DetectFileConflicts(waves[i].tasks, taskMap);
    if |conflicts| == 0 {
      NoConflictsMeansFree(waves[i].tasks, taskMap);
    } else {
      r, m, s := ResolveConflicts(waves, i, conflicts, reverse, order, taskMap, w);
      MovesInside(taskMap, order, w, m, s);
      changed := true;
    }
  }

  /** The fixpoint loop has come from `first` to `waves` along the run `trace`. */
  ghost predicate Settling(tasks: seq<Task>, first: seq<Wave>, start: map<Id, nat>,
                           waves: seq<Wave>, trace: seq<map<Id, nat>>) {
    && trace != [] && trace[0] == start
    && Run(TaskMap(tasks), Order(tasks), trace)
    && Laid(TaskMap(tasks), Order(tasks), waves, trace[|trace| - 1])
    && NamesExtend(first, waves)
  }

  lemma SettlingStarts(tasks: seq<Task>, first: seq<Wave>, start: map<Id, nat>)
    requires Laid(TaskMap(tasks), Order(tasks), first, start)
    ensures Settling(tasks, first, start, first, [start])
  {
    hide Placed, Full, Ordered;
  }

  lemma SettlingStep(tasks: seq<Task>, first: seq<Wave>, start: map<Id, nat>, waves: seq<Wave>,
                     trace: seq<map<Id, nat>>, m: Id, s: set<Id>, waves': seq<Wave>)
    requires Settling(tasks, first, start, waves, trace)
    requires Moves(TaskMap(tasks), Order(tasks), trace[|trace| - 1], m, s)
    requires Laid(TaskMap(tasks), Order(tasks), waves', Bump(trace[|trace| - 1], s)) && NamesExtend(waves, waves')
    ensures Settling(tasks, first, start, waves', trace + [Bump(trace[|trace| - 1], s)])
    ensures Room(tasks, trace + [Bump(trace[|trace| - 1], s)]) < Room(tasks, trace)
  {
    hide Placed, Full, Ordered, Run, Moves, Slack;
    MovesInside(TaskMap(tasks), Order(tasks), trace[|trace| - 1], m, s);
    RunExtends(TaskMap(tasks), Order(tasks), trace, m, s);
    BumpLowersSlack(tasks, TaskMap(tasks), Order(tasks), waves', trace[|trace| - 1], m, s);
  }

  ghost function Room(tasks: seq<Task>, trace: seq<map<Id, nat>>): nat
    requires trace != []
  {
    Slack(Ids(tasks), trace[|trace| - 1], |TaskMap(tasks)|)
  }

  /** One round of the outer loop: the first wave with conflicts is resolved, or none has any. */
  method ResolveFirst(waves: seq<Wave>, taskMap: map<Id, Task>, reverse: map<Id, seq<Id>>, order: map<Id, nat>,
                      ghost w: map<Id, nat>)
    returns (r: seq<Wave>, changed: bool, ghost m: Id, ghost s: set<Id>)
    requires Injective(order) && taskMap.Keys <= order.Keys && Filed(taskMap)
    requires IsReverse(DepsOf(taskMap), reverse) && Laid(taskMap, order, waves, w)
    ensures !changed ==> r == waves && FreeBelow(taskMap, w, |waves|)
    ensures changed ==> m in w && m in s && Moves(taskMap, order, w, m, s)
    ensures changed ==> Laid(taskMap, order, r, Bump(w, s)) && NamesExtend(waves, r)
  {
    hide Laid, NamesExtend, Injective, Filed, Moves, FreeBelow, IsReverse, Bump;
    r, changed, m, s := waves, false, "", {};
    FreeBelowNone(taskMap, w);
    var i := 0;
    while i < |waves| && !changed
      invariant !changed ==> i <= |waves| && r == waves && FreeBelow(taskMap, w, i)
      invariant changed ==> m in w && m in s && Moves(taskMap, order, w, m, s)
      invariant changed ==> Laid(taskMap, order, r, Bump(w, s)) && NamesExtend(waves, r)
      decreases !changed, |waves| - i
    {
      r, changed, m, s := ResolveWave(r, i, taskMap, reverse, order, w);
      i := i + 1;
    }
  }

  lemma TablesAreFit(tasks: seq<Task>)
    requires UniqueIds(tasks)
    ensures Injective(Order(tasks)) && TaskMap(tasks).Keys <= Order(tasks).Keys && Filed(TaskMap(tasks))
  {
    OrderInjective(tasks);
    TablesOfUnique(tasks);
  }

  /** The fixpoint loop of `ComputeWaves`: conflicts are resolved one at a time until none is left. */
  method SettleConflicts(tasks: seq<Task>, first: seq<Wave>, taskMap: map<Id, Task>, reverse: map<Id, seq<Id>>,
                         order: map<Id, nat>, ghost start: map<Id, nat>)
    returns (waves: seq<Wave>, ghost trace: seq<map<Id, nat>>)
    requires taskMap == TaskMap(tasks) && order == Order(tasks) && UniqueIds(tasks)
    requires IsReverse(DepsOf(taskMap), reverse)
    requires Laid(taskMap, order, first, start)
    ensures Settling(tasks, first, start, waves, trace) && Settled(taskMap, trace[|trace| - 1])
  {
    hide Laid, Run, NamesExtend, TaskMap, Order, Injective, Filed, UniqueIds, Moves, FreeBelow, IsReverse, Room;
    hide Settled, Bump;
    TablesAreFit(tasks);
    SettlingStarts(tasks, first, start);
    waves, trace := first, [start];
    var changed := true;
    while changed
      invariant Settling(tasks, first, start, waves, trace)
      invariant !changed ==> FreeBelow(taskMap, trace[|trace| - 1], |waves|)
      decreases Room(tasks, trace), changed
    {
      ghost var before, m, s := waves, "", {};
      waves, changed, m, s := ResolveFirst(waves, taskMap, reverse, order, trace[|trace| - 1]);
      if changed {
        SettlingStep(tasks, first, start, before, trace, m, s, waves);
        trace := trace + [Bump(trace[|trace| - 1], s)];
      }
    }
    SettledBelow(taskMap, order, waves, trace[|trace| - 1]);
  }

  lemma MovesInside(taskMap: map<Id, Task>, order: map<Id, nat>, w: map<Id, nat>, m: Id, s: set<Id>)
    requires Moves(taskMap, order, w, m, s)
    ensures m in w && m in s
  {
  }

  lemma EmptyMemo(g: Graph)
    ensures MemoCorrect(g, map[])
  {
  }

  /** `ComputeWaves`: ends for every acyclic task list of distinct IDs, in the one layout the abstract
      process leads to, which is a schedule. */
  method ComputeWaves(tasks: seq<Task>) returns (waves: seq<Wave>, ghost levels: seq<nat>)
    requires UniqueIds(tasks) && Acyclic(GraphOf(tasks))
    ensures Schedule(tasks, waves)
    ensures Computed(tasks, waves)
    ensures Titled(tasks, waves, levels)
  {
    hide Schedule, Laid, Titled, IsStart, Settled, Run, Grouped, Acyclic, IsReverse, UniqueIds, TaskMap, Order;
    hide NamesExtend;
    hide MemoCorrect, Depth, IsDepth;
    var taskMap, order := TaskMap(tasks), Order(tasks);
    var depth: map<Id, nat> := map[];
    EmptyMemo(GraphOf(tasks));
    for i := 0 to |tasks|
      invariant MemoCorrect(GraphOf(tasks), depth)
      invariant forall j | 0 <= j < i :: tasks[j].id in depth
    {
      var d;
      d, depth := ComputeDepth(tasks[i].id, taskMap, depth);
    }
    waves, levels := GroupByDepth(tasks, depth);
    var reverse := BuildReverseDeps(tasks, order);
    ghost var start := GroupedIsLaid(tasks, depth, waves, levels);
    ghost var first, trace := waves, [];
    waves, trace := SettleConflicts(tasks, waves, taskMap, reverse, order, start);
    LaidIsSchedule(tasks, waves, trace[|trace| - 1]);
    assert CompleteRun(tasks, trace);
    TitledExtends(tasks, first, waves, levels);
  }

  lemma TitledExtends(tasks: seq<Task>, first: seq<Wave>, waves: seq<Wave>, levels: seq<nat>)
    requires Titled(tasks, first, levels) && NamesExtend(first, waves)
    ensures Titled(tasks, waves, levels)
  {
    hide AreLevels;
  }
}

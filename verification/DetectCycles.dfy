/** The ticket store's cycle report: all dependency cycles a depth-first search meets, normalized and distinct. */
module DetectCycles {
  import opened Strings
  import opened Graphs
  import opened CycleSearch
  import opened Tickets

  // ----- the graph of unfinished tasks -----

  ghost predicate Active(tasks: seq<TicketTask>, id: Id) {
    exists i | 0 <= i < |tasks| :: tasks[i].id == id && StatusToTicket(tasks[i].status) != Closed
  }

  /** `a` is an unfinished task that lists `b`. */
  ghost predicate Waits(tasks: seq<TicketTask>, a: Id, b: Id) {
    exists i | 0 <= i < |tasks| :: tasks[i].id == a && StatusToTicket(tasks[i].status) != Closed && b in tasks[i].deps
  }

  /** Unfinished is whatever is neither done nor failed. */
  lemma UnfinishedIs(tasks: seq<TicketTask>, a: Id, b: Id)
    ensures Active(tasks, a) <==> exists i :: 0 <= i < |tasks| && tasks[i].id == a && tasks[i].status !in [Done, Failed]
    ensures Waits(tasks, a, b) <==>
              exists i :: 0 <= i < |tasks| && tasks[i].id == a && b in tasks[i].deps
                          && tasks[i].status !in [Done, Failed]
  {
    forall i | 0 <= i < |tasks|
      ensures StatusToTicket(tasks[i].status) != Closed <==> tasks[i].status !in [Done, Failed]
    {
    }
    hide StatusToTicket;
  }

  method BuildAdjacency(tasks: seq<TicketTask>) returns (adj: Graph)
    ensures forall id :: id in adj <==> Active(tasks, id)
    ensures forall a, b :: Edge(adj, a, b) <==> Waits(tasks, a, b)
  {
    adj := map[];
    for i := 0 to |tasks|
      invariant forall id :: id in adj <==> Active(tasks[..i], id)
      invariant forall a, b :: Edge(adj, a, b) <==> Waits(tasks[..i], a, b)
    {
      ghost var before := adj;
      if StatusToTicket(tasks[i].status) != Closed {
        var id := tasks[i].id;
        adj := adj[id := (if id in adj then adj[id] else []) + tasks[i].deps];
      }
      forall id ensures id in adj <==> Active(tasks[..i + 1], id) {
        ActiveNext(tasks, i, id);
      }
      forall a, b ensures Edge(adj, a, b) <==> Waits(tasks[..i + 1], a, b) {
        WaitsNext(tasks, i, a, b);
        assert Edge(before, a, b) <==> Waits(tasks[..i], a, b);
      }
    }
    assert tasks[..|tasks|] == tasks;
  }

  lemma ActiveNext(tasks: seq<TicketTask>, n: nat, id: Id)
    requires n < |tasks|
    ensures Active(tasks[..n + 1], id) <==>
              Active(tasks[..n], id) || (tasks[n].id == id && StatusToTicket(tasks[n].status) != Closed)
  {
    var now, next := tasks[..n], tasks[..n + 1];
    if i :| 0 <= i < |now| && now[i].id == id && StatusToTicket(now[i].status) != Closed { assert next[i] == now[i]; }
    if i :| 0 <= i < |next| && next[i].id == id && StatusToTicket(next[i].status) != Closed {
      if i < n { assert now[i] == next[i]; }
    }
    assert next[n] == tasks[n];
  }

  lemma WaitsNext(tasks: seq<TicketTask>, n: nat, a: Id, b: Id)
    requires n < |tasks|
    ensures Waits(tasks[..n + 1], a, b) <==>
              Waits(tasks[..n], a, b)
              || (tasks[n].id == a && StatusToTicket(tasks[n].status) != Closed && b in tasks[n].deps)
  {
    var now, next := tasks[..n], tasks[..n + 1];
    if i :| 0 <= i < |now| && now[i].id == a && StatusToTicket(now[i].status) != Closed && b in now[i].deps {
      assert next[i] == now[i];
    }
    if i :| 0 <= i < |next| && next[i].id == a && StatusToTicket(next[i].status) != Closed && b in next[i].deps {
      if i < n { assert now[i] == next[i]; }
    }
    assert next[n] == tasks[n];
  }

  function OnlyIn(ids: seq<Id>, keep: set<Id>): (r: seq<Id>)
    ensures forall id :: id in r <==> id in ids && id in keep
  {
    if ids == [] then []
    else
      assert ids == ids[..|ids| - 1] + [ids[|ids| - 1]];
      var front := OnlyIn(ids[..|ids| - 1], keep);
      if ids[|ids| - 1] in keep then front + [ids[|ids| - 1]] else front
  }

  /** Dependencies between unfinished tasks only. */
  function Live(adj: Graph): Graph {
    map a | a in adj :: OnlyIn(adj[a], adj.Keys)
  }

  // ----- cycles as lists -----

  /** A simple cycle in which each task depends on the one before it, and the first on the last. */
  ghost predicate IsCycle(g: Graph, c: seq<Id>) {
    && c != []
    && (forall i, j | 0 <= i < j < |c| :: c[i] != c[j])
    && (forall i | 0 < i < |c| :: Edge(g, c[i], c[i - 1]))
    && Edge(g, c[0], c[|c| - 1])
  }

  lemma CycleReaches(g: Graph, c: seq<Id>)
    requires IsCycle(g, c)
    ensures Reaches(g, c[0], c[0])
  {
    var n := |c|;
    var p := seq(n + 1, k requires 0 <= k <= n => if k == 0 then c[0] else c[n - k]);
    forall k | 0 <= k < |p| - 1 ensures Edge(g, p[k], p[k + 1]) {
      if k > 0 { assert Edge(g, c[n - k], c[n - k - 1]); }
    }
    assert IsWalkBetween(g, p, c[0], c[0]);
  }

  /** The cycle closed by an edge from the end of `stack` back to position `i`. */
  function CycleOf(stack: seq<Id>, i: nat): (c: seq<Id>)
    requires i < |stack|
    ensures |c| == |stack| - i
  {
    seq(|stack| - i, k requires 0 <= k < |stack| - i => if k == 0 then stack[i] else stack[|stack| - k])
  }

  lemma CycleOfIsCycle(g: Graph, stack: seq<Id>, i: nat)
    requires i < |stack| && Edge(g, stack[|stack| - 1], stack[i])
    requires forall j | 0 <= j < |stack| - 1 :: Edge(g, stack[j], stack[j + 1])
    requires forall j, k | 0 <= j < k < |stack| :: stack[j] != stack[k]
    ensures IsCycle(g, CycleOf(stack, i))
  {
    var c, n := CycleOf(stack, i), |stack|;
    forall k | 0 < k < |c| ensures Edge(g, c[k], c[k - 1]) {
      if k > 1 {
        assert Edge(g, stack[n - k], stack[n - k + 1]);
      }
    }
    if |c| > 1 {
      assert c[|c| - 1] == stack[i + 1];
      assert Edge(g, stack[i], stack[i + 1]);
    }
    forall j, k | 0 <= j < k < |c| ensures c[j] != c[k] {
      if j == 0 { assert c[k] == stack[n - k] && i < n - k; } else { assert n - k < n - j; }
    }
  }

  /** Each entry of the parent table is the node before it on the path being explored. */
  ghost predicate Parents(parent: map<Id, Id>, stack: seq<Id>) {
    forall i | 0 < i < |stack| :: stack[i] in parent && parent[stack[i]] == stack[i - 1]
  }

  /** `r` is `c` up to the first empty ID behind its head. */
  ghost predicate CutAtEmpty(c: seq<Id>, r: seq<Id>) {
    r != [] && r <= c && "" !in r[1..] && (|r| < |c| ==> c[|r|] == "")
  }

  /** Such a list is a cycle itself only when its head depends on its last element. */
  lemma CutIsCycleIff(g: Graph, c: seq<Id>, r: seq<Id>)
    requires IsCycle(g, c) && CutAtEmpty(c, r)
    ensures IsCycle(g, r) <==> Edge(g, r[0], r[|r| - 1])
  {
    forall i | 0 < i < |r| ensures Edge(g, r[i], r[i - 1]) {
      assert Edge(g, c[i], c[i - 1]);
    }
  }

  /** `extractCycle` walks the parent table back from the end of the path to where the cycle starts, and stops early
      at an empty ID: it finds the whole cycle exactly when no empty ID lies behind its head. */
  method ExtractCycle(parent: map<Id, Id>, from: Id, to: Id, ghost stack: seq<Id>, ghost i: nat)
    returns (cycle: seq<Id>)
    requires i < |stack| && stack[i] == to && stack[|stack| - 1] == from
    requires forall j, k | 0 <= j < k < |stack| :: stack[j] != stack[k]
    requires Parents(parent, stack)
    ensures CutAtEmpty(CycleOf(stack, i), cycle)
    ensures cycle == CycleOf(stack, i) <==> "" !in CycleOf(stack, i)[1..]
  {
    if from == to {
      assert i == |stack| - 1;
      return [to];
    }
    cycle := [to];
    var node := from;
    ghost var at := |stack| - 1;
    while node != to && node != ""
      invariant i <= at < |stack| && node == stack[at]
      invariant cycle == CycleOf(stack, i)[..|stack| - at] && "" !in cycle[1..]
      decreases at
    {
      assert CycleOf(stack, i)[|stack| - at] == node;
      cycle := cycle + [node];
      node := if node in parent then parent[node] else "";
      at := at - 1;
    }
    if at > i {
      assert CycleOf(stack, i)[1..][|stack| - at - 1] == "";
    }
  }

  /** The empty ID lies on a cycle with some other task. */
  ghost predicate OnLongerCycle(g: Graph) {
    exists y :: y != "" && Reaches(g, "", y) && Reaches(g, y, "")
  }

  lemma {:induction false} LaterReaches(g: Graph, c: seq<Id>, i: nat, j: nat)
    requires IsCycle(g, c) && j < i < |c|
    ensures Reaches(g, c[i], c[j])
    decreases i
  {
    EdgeReaches(g, c[i], c[i - 1]);
    if j < i - 1 {
      LaterReaches(g, c, i - 1, j);
      ReachesTransitive(g, c[i], c[i - 1], c[j]);
    }
  }

  lemma HeadReaches(g: Graph, c: seq<Id>, i: nat)
    requires IsCycle(g, c) && 0 < i < |c|
    ensures Reaches(g, c[0], c[i])
  {
    var last := |c| - 1;
    EdgeReaches(g, c[0], c[last]);
    if i < last {
      LaterReaches(g, c, last, i);
      ReachesTransitive(g, c[0], c[last], c[i]);
    }
  }

  /** Only a longer cycle through the empty ID has it behind its head. */
  lemma EmptyBehindHead(g: Graph, c: seq<Id>)
    requires IsCycle(g, c) && "" in c[1..]
    ensures OnLongerCycle(g)
  {
    var i :| 0 < i < |c| && c[i] == "";
    assert c[0] != c[i];
    LaterReaches(g, c, i, 0);
    HeadReaches(g, c, i);
  }

  /** On a longer cycle the empty ID has a dependency of another name that leads back to it. */
  lemma LongerCycleLeaves(g: Graph) returns (y: Id)
    requires OnLongerCycle(g)
    ensures y != "" && Edge(g, "", y) && Reaches(g, y, "")
  {
    var z :| z != "" && Reaches(g, "", z) && Reaches(g, z, "");
    var p :| IsWalkBetween(g, p, "", z);
    y := WalkLeaves(g, p, z);
  }

  lemma {:induction false} WalkLeaves(g: Graph, p: seq<Id>, z: Id) returns (y: Id)
    requires IsWalkBetween(g, p, "", z) && z != "" && Reaches(g, z, "")
    ensures y != "" && Edge(g, "", y) && Reaches(g, y, "")
    decreases |p|
  {
    y := p[1];
    assert Edge(g, p[0], p[1]);
    if |p| > 2 {
      var q := p[1..];
      forall k | 0 <= k < |q| - 1 ensures Edge(g, q[k], q[k + 1]) {
        assert Edge(g, p[k + 1], p[k + 2]);
      }
      assert IsWalkBetween(g, q, y, z);
      if y == "" {
        y := WalkLeaves(g, q, z);
      } else {
        ReachesTransitive(g, y, z, "");
      }
    }
  }

  /** No element of a list sorts before its first. */
  ghost predicate SmallestFirst(c: seq<Id>) {
    c != [] && forall i | 0 <= i < |c| :: !Less(c[i], c[0])
  }

  /** `normalizeCycle` rotates the cycle so that its smallest ID comes first. */
  method NormalizeCycle(cycle: seq<Id>) returns (r: seq<Id>)
    ensures cycle == [] ==> r == []
    ensures cycle != [] ==> SmallestFirst(r) && exists m :: 0 <= m < |cycle| && r == cycle[m..] + cycle[..m]
  {
    if |cycle| == 0 {
      return [];
    }
    hide Less;
    var minIdx := 0;
    LessIrreflexive(cycle[0]);
    for i := 1 to |cycle|
      invariant 0 <= minIdx < |cycle|
      invariant forall j | 0 <= j < i :: !Less(cycle[j], cycle[minIdx])
    {
      LessIrreflexive(cycle[i]);
      if Less(cycle[i], cycle[minIdx]) {
        forall j | 0 <= j < i ensures !Less(cycle[j], cycle[i]) {
          if Less(cycle[j], cycle[i]) { LessTransitive(cycle[j], cycle[i], cycle[minIdx]); }
        }
        minIdx := i;
      }
    }
    var n := |cycle|;
    r := seq(n, i requires 0 <= i < n => cycle[(minIdx + i) % n]);
    Rotated(cycle, minIdx, r);
  }

  lemma Rotated(cycle: seq<Id>, m: nat, r: seq<Id>)
    requires m < |cycle| == |r|
    requires forall i | 0 <= i < |cycle| :: r[i] == cycle[(m + i) % |cycle|]
    requires forall j | 0 <= j < |cycle| :: !Less(cycle[j], cycle[m])
    ensures r == cycle[m..] + cycle[..m] && SmallestFirst(r)
  {
    hide Less;
    var n := |cycle|;
    forall i | 0 <= i < n ensures r[i] == (cycle[m..] + cycle[..m])[i] {
      WrapsOnce(m + i, n);
    }
  }

  lemma WrapsOnce(x: nat, n: nat)
    requires 0 < n && x < 2 * n
    ensures x % n == if x < n then x else x - n
  {
    if x >= n { assert x % n == (x - n) % n; }
  }

  lemma RotationIsCycle(g: Graph, c: seq<Id>, m: nat)
    requires IsCycle(g, c) && m < |c|
    ensures IsCycle(g, c[m..] + c[..m])
  {
    var r, n := c[m..] + c[..m], |c|;
    forall i | 0 < i < |r| ensures Edge(g, r[i], r[i - 1]) {
      if i < n - m {
        assert Edge(g, c[m + i], c[m + i - 1]);
      } else if i > n - m {
        assert Edge(g, c[m + i - n], c[m + i - n - 1]);
      }
    }
    if m > 0 { assert Edge(g, c[m], c[m - 1]); }
  }

  // ----- the search -----

  /** A report: smallest ID first, and a cycle unless the empty ID lies on one with another task. */
  ghost predicate IsReport(g: Graph, c: seq<Id>) {
    SmallestFirst(c) && (forall x | x in c :: x in g) && (!OnLongerCycle(g) ==> IsCycle(g, c))
  }

  /** The list is what a search makes of the cycle that the dependency of `x` on `b` closes: `x` stands behind `b`, and
      an empty `x` is cut off. */
  ghost predicate Closes(c: seq<Id>, x: Id, b: Id) {
    if x == "" && b != "" then c == [b]
    else exists i :: 0 <= i < |c| && c[i] == b && c[if i + 1 < |c| then i + 1 else 0] == x
  }

  ghost predicate Reported(cycles: seq<seq<Id>>, x: Id, b: Id) {
    exists c :: c in cycles && Closes(c, x, b)
  }

  /** Nothing a finished node depends on has been left out, and each of its dependencies that was not finished before
      it has been reported. */
  ghost predicate Searched(g: Graph, stack: seq<Id>, done: seq<Id>, cycles: seq<seq<Id>>) {
    && (forall i, j | 0 <= i < j < |done| :: done[i] != done[j])
    && (forall i, b | 0 <= i < |done| && Edge(g, done[i], b) :: b in done || b in stack)
    && (forall i, b | 0 <= i < |done| && Edge(g, done[i], b) ::
          (exists j :: 0 <= j < i && done[j] == b) || Reported(cycles, done[i], b))
  }

  lemma ReportedStays(cycles: seq<seq<Id>>, more: seq<seq<Id>>, x: Id, b: Id)
    requires Reported(cycles, x, b) && cycles <= more
    ensures Reported(more, x, b)
  {
    var c :| c in cycles && Closes(c, x, b);
    assert c in more;
  }

  lemma SearchedMore(g: Graph, stack: seq<Id>, done: seq<Id>, cycles: seq<seq<Id>>, more: seq<seq<Id>>)
    requires Searched(g, stack, done, cycles) && cycles <= more
    ensures Searched(g, stack, done, more)
  {
    hide Reported;
    forall i, b | 0 <= i < |done| && Edge(g, done[i], b) && Reported(cycles, done[i], b)
      ensures Reported(more, done[i], b)
    {
      ReportedStays(cycles, more, done[i], b);
    }
  }

  lemma SearchedPush(g: Graph, stack: seq<Id>, done: seq<Id>, cycles: seq<seq<Id>>, node: Id)
    requires Searched(g, stack, done, cycles)
    ensures Searched(g, stack + [node], done, cycles)
  {
    hide Reported;
  }

  lemma SearchedPop(g: Graph, before: seq<Id>, done: seq<Id>, cycles: seq<seq<Id>>, node: Id)
    requires Searched(g, before + [node], done, cycles) && node !in done
    requires forall b | Edge(g, node, b) :: b in done || b in before + [node]
    requires forall b | Edge(g, node, b) :: b in done || Reported(cycles, node, b)
    ensures Searched(g, before, done + [node], cycles)
  {
    hide Reported;
    var longer := done + [node];
    forall i, b | 0 <= i < |longer| && Edge(g, longer[i], b)
      ensures (exists j :: 0 <= j < i && longer[j] == b) || Reported(cycles, longer[i], b)
    {
      if i < |done| {
        if j :| 0 <= j < i && done[j] == b { assert longer[j] == b; }
      } else if b in done {
        var j :| 0 <= j < |done| && done[j] == b;
        assert longer[j] == b;
      }
    }
  }

  /** A list cut from the cycle that a back edge closes reports that edge, and so does any rotation of it. */
  lemma RotationCloses(whole: seq<Id>, cycle: seq<Id>, r: seq<Id>, m: nat, x: Id, b: Id)
    requires CutAtEmpty(whole, cycle) && m < |cycle| && r == cycle[m..] + cycle[..m]
    requires whole[0] == b && if |whole| == 1 then x == b else whole[1] == x && x != b
    ensures Closes(r, x, b)
  {
    NoEmptyBehind(cycle);
    if x == "" && b != "" {
      assert r == cycle;
    } else {
      assert cycle[0] == b && cycle[if |cycle| > 1 then 1 else 0] == x by { HeadOfCut(whole, cycle, x, b); }
      RotationFollows(cycle, r, m);
    }
  }

  lemma NoEmptyBehind(r: seq<Id>)
    requires r != [] && "" !in r[1..]
    ensures forall k | 0 < k < |r| :: r[k] != ""
  {
    forall k | 0 < k < |r| ensures r[k] != "" {
      assert r[1..][k - 1] == r[k];
    }
  }

  lemma HeadOfCut(whole: seq<Id>, cycle: seq<Id>, x: Id, b: Id)
    requires CutAtEmpty(whole, cycle) && (x != "" || b == "")
    requires whole[0] == b && if |whole| == 1 then x == b else whole[1] == x && x != b
    ensures cycle[0] == b && cycle[if |cycle| > 1 then 1 else 0] == x
  {
  }

  lemma RotationFollows(cycle: seq<Id>, r: seq<Id>, m: nat)
    requires m < |cycle| && r == cycle[m..] + cycle[..m]
    ensures exists i :: 0 <= i < |r| && r[i] == cycle[0]
                        && r[if i + 1 < |r| then i + 1 else 0] == cycle[if |cycle| > 1 then 1 else 0]
  {
    var i := if m == 0 then 0 else |cycle| - m;
    assert r[i] == cycle[0];
    assert r[if i + 1 < |r| then i + 1 else 0] == cycle[if |cycle| > 1 then 1 else 0];
  }

  class CycleFinder {
    const adj: Graph
    var color: map<Id, Color>
    var parent: map<Id, Id>
    var cycles: seq<seq<Id>>
    ghost var stack: seq<Id>
    ghost var done: seq<Id>

    constructor (adj: Graph)
      ensures Valid() && this.adj == adj && stack == [] && done == []
    {
      this.adj := adj;
      color, parent, cycles := map[], map[], [];
      stack, done := [], [];
    }

    ghost predicate Valid()
      reads this
    {
      && Coloured(Live(adj), color, stack, done)
      && Parents(parent, stack)
      && (forall x | x in stack :: x in adj)
      && Searched(Live(adj), stack, done, cycles)
      && (cycles != [] ==> !Acyclic(Live(adj)))
      && (forall c | c in cycles :: IsReport(Live(adj), c))
    }

    ghost function Unseen(): set<Id>
      reads this
    {
      set x | x in adj && ColorOf(color, x) == White
    }

    /** One frame of the recursive search: `node` is finished last, and by `Valid` nothing it depends on has been left
        out and every edge back into the path has been reported. */
    method Dfs(node: Id)
      requires Valid() && node in adj && ColorOf(color, node) == White
      requires stack != [] ==> Edge(Live(adj), stack[|stack| - 1], node)
      requires stack != [] ==> node in parent && parent[node] == stack[|stack| - 1]
      modifies this
      ensures Valid() && stack == old(stack) && old(done) <= done && old(cycles) <= cycles
      ensures done != [] && done[|done| - 1] == node
      ensures Unseen() <= old(Unseen())
      decreases Unseen(), 1
    {
      hide *;
      ghost var before, unseen := stack, Unseen();
      Open(node);
      var deps := adj[node];
      ghost var sofar, known := done, cycles;
      for i := 0 to |deps|
        invariant Valid() && stack == before + [node] && sofar <= done && known <= cycles
        invariant forall j | 0 <= j < i && deps[j] in adj :: IsFollowed(stack, done, cycles, node, deps[j])
        invariant Unseen() < unseen
      {
        ghost var earlier, listed := cycles, done;
        Follow(node, deps[i]);
        forall j | 0 <= j < i && deps[j] in adj ensures IsFollowed(stack, done, cycles, node, deps[j]) {
          FollowedStays(stack, listed, earlier, done, cycles, node, deps[j]);
        }
      }
      Close(node, before);
    }

    /** Marks `node` gray at the end of the path. */
    method Open(node: Id)
      requires Valid() && node in adj && ColorOf(color, node) == White
      requires stack != [] ==> Edge(Live(adj), stack[|stack| - 1], node)
      requires stack != [] ==> node in parent && parent[node] == stack[|stack| - 1]
      modifies this
      ensures Valid() && stack == old(stack) + [node] && done == old(done) && cycles == old(cycles)
      ensures Unseen() < old(Unseen())
    {
      hide Coloured, Searched, IsReport, IsCycle, SmallestFirst, Live, Parents, Acyclic;
      Enter(Live(adj), color, stack, done, node);
      SearchedPush(Live(adj), stack, done, cycles, node);
      ParentsPush(parent, stack, node);
      assert node in Unseen();
      color := color[node := Gray];
      stack := stack + [node];
      assert node !in Unseen() && Unseen() <= old(Unseen());
    }

    /** One dependency of the node at the end of the path. */
    method Follow(node: Id, dep: Id)
      requires Valid() && stack != [] && stack[|stack| - 1] == node && node in adj && dep in adj[node]
      modifies this
      ensures Valid() && stack == old(stack) && old(done) <= done && old(cycles) <= cycles
      ensures dep in adj ==> IsFollowed(stack, done, cycles, node, dep)
      ensures Unseen() <= old(Unseen())
      decreases Unseen(), 2
    {
      hide Coloured, Searched, IsReport, IsCycle, SmallestFirst, Live, Parents, Acyclic, Closes, CutAtEmpty;
      if dep !in adj {
        return;
      }
      LiveEdge(adj, node, dep);
      PathState(Live(adj), color, stack, done, dep);
      match ColorOf(color, dep) {
        case Gray =>
          ghost var at: nat :| at < |stack| && stack[at] == dep;
          var cycle := Backtrace(parent, node, dep, Live(adj), stack, at);
          SearchedMore(Live(adj), stack, done, cycles, cycles + [cycle]);
          cycles := cycles + [cycle];
          assert cycle in cycles;
        case White =>
          ParentsKeep(parent, stack, dep, node);
          parent := parent[dep := node];
          Dfs(dep);
        case Black =>
      }
    }

    /** Marks the node at the end of the path black. */
    method Close(node: Id, ghost before: seq<Id>)
      requires Valid() && stack == before + [node] && node in adj
      requires forall j | 0 <= j < |adj[node]| && adj[node][j] in adj ::
                 IsFollowed(stack, done, cycles, node, adj[node][j])
      modifies this
      ensures Valid() && stack == before && done == old(done) + [node] && cycles == old(cycles)
      ensures Unseen() <= old(Unseen())
    {
      hide Coloured, Searched, IsReport, IsCycle, SmallestFirst, Live, Parents, Acyclic, Reported;
      PathState(Live(adj), color, stack, done, node);
      assert stack[|before|] == node;
      Leave(Live(adj), color, before, node, done);
      ParentsPop(parent, before, node);
      forall b | Edge(Live(adj), node, b) ensures IsFollowed(stack, done, cycles, node, b) {
        LiveEdges(adj, node, b);
        var j :| 0 <= j < |adj[node]| && adj[node][j] == b;
      }
      SearchedPop(Live(adj), before, done, cycles, node);
      forall x | x in before ensures x in adj {
        assert x in stack;
      }
      color := color[node := Black];
      stack := before;
      done := done + [node];
    }

    /** The report of the back edge from `node` to `dep`. */
    static method Backtrace(parent: map<Id, Id>, node: Id, dep: Id, ghost g: Graph, ghost stack: seq<Id>, ghost at: nat)
      returns (r: seq<Id>)
      requires at < |stack| && stack[at] == dep && stack[|stack| - 1] == node && Edge(g, node, dep)
      requires forall j, k | 0 <= j < k < |stack| :: stack[j] != stack[k]
      requires forall j | 0 <= j < |stack| - 1 :: Edge(g, stack[j], stack[j + 1])
      requires Parents(parent, stack)
      ensures IsReport(g, r) && Closes(r, node, dep) && !Acyclic(g)
    {
      hide IsReport, IsCycle, Parents, Acyclic, Closes, CutAtEmpty, Edge;
      r := ExtractCycle(parent, node, dep, stack, at);
      ghost var whole := CycleOf(stack, at);
      CycleOfIsCycle(g, stack, at);
      CycleIsACircle(g, whole);
      assert at < |stack| - 1 ==> whole[1] == node && node != dep;
      r := Normalized(r, g, whole, node, dep);
    }

    static method Normalized(cycle: seq<Id>, ghost g: Graph, ghost whole: seq<Id>, ghost x: Id, ghost b: Id)
      returns (r: seq<Id>)
      requires IsCycle(g, whole) && CutAtEmpty(whole, cycle) && (cycle == whole <==> "" !in whole[1..])
      requires whole[0] == b && if |whole| == 1 then x == b else whole[1] == x && x != b
      ensures IsReport(g, r) && Closes(r, x, b)
    {
      hide Reaches, SmallestFirst, Closes, IsCycle, OnLongerCycle, IsReport, CutAtEmpty;
      NotEmpty(whole, cycle);
      r := NormalizeCycle(cycle);
      ghost var m :| 0 <= m < |cycle| && r == cycle[m..] + cycle[..m];
      RotationCloses(whole, cycle, r, m, x, b);
      RotationReports(g, whole, cycle, r, m);
    }
  }

  lemma NotEmpty(whole: seq<Id>, cycle: seq<Id>)
    requires CutAtEmpty(whole, cycle)
    ensures cycle != []
  {
  }

  lemma RotationReports(g: Graph, whole: seq<Id>, cycle: seq<Id>, r: seq<Id>, m: nat)
    requires IsCycle(g, whole) && CutAtEmpty(whole, cycle) && (cycle == whole <==> "" !in whole[1..])
    requires m < |cycle| && r == cycle[m..] + cycle[..m] && SmallestFirst(r)
    ensures IsReport(g, r)
  {
    hide SmallestFirst, OnLongerCycle, IsCycle;
    CycleMembers(g, whole);
    assert forall x | x in r :: x in cycle;
    assert forall x | x in cycle :: x in whole;
    if !OnLongerCycle(g) {
      if "" in whole[1..] { EmptyBehindHead(g, whole); }
      RotationIsCycle(g, cycle, m);
    }
  }

  /** The search has dealt with the dependency of `x` on `b`. */
  ghost predicate IsFollowed(stack: seq<Id>, done: seq<Id>, cycles: seq<seq<Id>>, x: Id, b: Id) {
    (b in done || b in stack) && (b in done || Reported(cycles, x, b))
  }

  lemma FollowedStays(stack: seq<Id>, done: seq<Id>, cycles: seq<seq<Id>>, done': seq<Id>, cycles': seq<seq<Id>>, x: Id,
                      b: Id)
    requires IsFollowed(stack, done, cycles, x, b) && done <= done' && cycles <= cycles'
    ensures IsFollowed(stack, done', cycles', x, b)
  {
    hide Reported;
    if b in done { assert b in done'; } else { ReportedStays(cycles, cycles', x, b); }
  }

  lemma CycleMembers(g: Graph, c: seq<Id>)
    requires IsCycle(g, c)
    ensures forall x | x in c :: x in g
  {
    forall i | 0 <= i < |c| ensures c[i] in g {
      if i > 0 { assert Edge(g, c[i], c[i - 1]); }
    }
  }

  lemma CycleIsACircle(g: Graph, c: seq<Id>)
    requires IsCycle(g, c)
    ensures !Acyclic(g)
  {
    CycleReaches(g, c);
  }

  lemma ParentsPush(parent: map<Id, Id>, stack: seq<Id>, node: Id)
    requires Parents(parent, stack)
    requires stack != [] ==> node in parent && parent[node] == stack[|stack| - 1]
    ensures Parents(parent, stack + [node])
  {
  }

  lemma ParentsPop(parent: map<Id, Id>, before: seq<Id>, node: Id)
    requires Parents(parent, before + [node])
    ensures Parents(parent, before)
  {
    forall i | 0 < i < |before| ensures before[i] in parent && parent[before[i]] == before[i - 1] {
      assert (before + [node])[i] == before[i] && (before + [node])[i - 1] == before[i - 1];
    }
  }

  lemma ParentsKeep(parent: map<Id, Id>, stack: seq<Id>, dep: Id, node: Id)
    requires Parents(parent, stack) && dep !in stack
    ensures Parents(parent[dep := node], stack)
  {
  }

  lemma LiveEdge(adj: Graph, a: Id, b: Id)
    requires Edge(adj, a, b) && b in adj
    ensures Edge(Live(adj), a, b)
  {
  }

  lemma LiveEdges(adj: Graph, a: Id, b: Id)
    ensures Edge(Live(adj), a, b) <==> Edge(adj, a, b) && b in adj
  {
  }

  lemma PathState(g: Graph, color: map<Id, Color>, stack: seq<Id>, done: seq<Id>, x: Id)
    requires Coloured(g, color, stack, done)
    ensures ColorOf(color, x) == Gray <==> x in stack
    ensures ColorOf(color, x) == Black <==> x in done
    ensures forall i | 0 <= i < |stack| - 1 :: Edge(g, stack[i], stack[i + 1])
    ensures forall i, j | 0 <= i < j < |stack| :: stack[i] != stack[j]
  {
  }

  // ----- reporting -----

  const ARROW := '\U{2192}'

  /** `strings.Join(c, "\u2192")`. */
  function Key(c: seq<Id>): string {
    if c == [] then "" else if |c| == 1 then c[0] else c[0] + [ARROW] + Key(c[1..])
  }

  /** Every list of `all` has the joined text of one that is kept. */
  ghost predicate SameTexts(kept: seq<seq<Id>>, all: seq<seq<Id>>) {
    forall c | c in all :: exists u :: u in kept && Key(u) == Key(c)
  }

  /** Every key of `seen` is that of a cycle kept. */
  ghost predicate Keyed(unique: seq<seq<Id>>, seen: set<string>) {
    forall k | k in seen :: exists u :: u in unique && Key(u) == k
  }

  lemma KeysNext(unique: seq<seq<Id>>, seen: set<string>, c: seq<Id>)
    requires Keyed(unique, seen)
    ensures Keyed(unique + [c], seen + {Key(c)})
  {
    hide Key;
    assert c in unique + [c];
    forall k | k in seen ensures exists u :: u in unique + [c] && Key(u) == k {
      var u :| u in unique && Key(u) == k;
      assert u in unique + [c];
    }
  }

  /** `deduplicateCycles` keeps the first cycle of each key. */
  method DeduplicateCycles(cycles: seq<seq<Id>>) returns (unique: seq<seq<Id>>)
    ensures forall c | c in unique :: c in cycles
    ensures forall i, j | 0 <= i < j < |unique| :: Key(unique[i]) != Key(unique[j])
    ensures SameTexts(unique, cycles)
  {
    hide Key;
    var seen: set<string> := {};
    unique := [];
    for i := 0 to |cycles|
      invariant forall c | c in unique :: c in cycles && Key(c) in seen
      invariant forall i, j | 0 <= i < j < |unique| :: Key(unique[i]) != Key(unique[j])
      invariant Keyed(unique, seen)
      invariant forall j | 0 <= j < i :: Key(cycles[j]) in seen
    {
      var key := Key(cycles[i]);
      if key !in seen {
        KeysNext(unique, seen, cycles[i]);
        unique := unique + [cycles[i]];
        seen := seen + {key};
      }
    }
  }

  /** The joined text of a list of IDs tells the list when no ID contains the arrow it is joined with. */
  predicate Plain(id: Id) {
    ARROW !in id
  }

  lemma {:induction false} KeyInjective(c: seq<Id>, d: seq<Id>)
    requires c != [] && d != [] && Key(c) == Key(d)
    requires (forall x | x in c :: Plain(x)) && forall x | x in d :: Plain(x)
    ensures c == d
  {
    assert Plain(c[0]) && Plain(d[0]);
    if |c| > 1 { assert Key(c)[|c[0]|] == ARROW; }
    if |d| > 1 { assert Key(d)[|d[0]|] == ARROW; }
    if |c| > 1 && |d| > 1 {
      KeyTail(c, d);
      KeyInjective(c[1..], d[1..]);
      assert c == [c[0]] + c[1..] && d == [d[0]] + d[1..];
    }
  }

  lemma KeyTail(c: seq<Id>, d: seq<Id>)
    requires |c| > 1 && |d| > 1 && Key(c) == Key(d) && Plain(c[0]) && Plain(d[0])
    ensures c[0] == d[0] && Key(c[1..]) == Key(d[1..])
  {
    assert Key(c)[|c[0]|] == ARROW && Key(d)[|d[0]|] == ARROW;
    assert forall i | 0 <= i < |c[0]| :: Key(c)[i] == c[0][i] != ARROW;
    assert forall i | 0 <= i < |d[0]| :: Key(d)[i] == d[0][i] != ARROW;
    assert |c[0]| == |d[0]|;
    assert Key(c)[..|c[0]|] == c[0] && Key(d)[..|d[0]|] == d[0];
    assert Key(c)[|c[0]| + 1..] == Key(c[1..]) && Key(d)[|d[0]| + 1..] == Key(d[1..]);
  }

  // ----- what the report is worth -----

  /** On every cycle some dependency has been reported. */
  ghost predicate HitsEveryCycle(g: Graph, cycles: seq<seq<Id>>) {
    forall p, x | IsWalkBetween(g, p, x, x) :: exists k :: 0 <= k < |p| - 1 && Reported(cycles, p[k], p[k + 1])
  }

  /** The search comes first to a dependency of the empty ID that leads back to it. */
  ghost predicate StartsBehindEmpty(g: Graph, order: seq<Id>) {
    order != [] && order[0] != "" && Edge(g, "", order[0]) && Reaches(g, order[0], "")
  }

  /** A walk that does not end below where it starts in the list has a reported step. */
  lemma {:induction false} ReportedStep(g: Graph, done: seq<Id>, cycles: seq<seq<Id>>, p: seq<Id>, i: nat, t: nat)
    returns (k: nat)
    requires Searched(g, [], done, cycles) && IsWalk(g, p)
    requires i < |done| && t < |done| && done[i] == p[0] && done[t] == p[|p| - 1] && i <= t && (|p| == 1 ==> i < t)
    ensures k < |p| - 1 && Reported(cycles, p[k], p[k + 1])
    decreases |p|
  {
    hide Reported;
    assert Edge(g, p[0], p[1]);
    if Reported(cycles, p[0], p[1]) {
      k := 0;
    } else {
      var j :| 0 <= j < i && done[j] == p[1];
      var q := p[1..];
      forall n | 0 <= n < |q| - 1 ensures Edge(g, q[n], q[n + 1]) {
        assert Edge(g, p[n + 1], p[n + 2]);
      }
      k := ReportedStep(g, done, cycles, q, j, t);
      k := k + 1;
    }
  }

  lemma EveryCycleIsHit(g: Graph, done: seq<Id>, cycles: seq<seq<Id>>)
    requires Searched(g, [], done, cycles) && forall x | x in g :: x in done
    ensures HitsEveryCycle(g, cycles)
  {
    hide Searched, Reported;
    forall p, x | IsWalkBetween(g, p, x, x) ensures exists k :: 0 <= k < |p| - 1 && Reported(cycles, p[k], p[k + 1]) {
      assert Edge(g, p[0], p[1]);
      var i :| 0 <= i < |done| && done[i] == x;
      var k := ReportedStep(g, done, cycles, p, i, i);
    }
  }

  /** Without a report there is no cycle. */
  lemma NothingReported(g: Graph)
    requires HitsEveryCycle(g, [])
    ensures Acyclic(g)
  {
    assert forall x, b :: !Reported([], x, b);
    hide Reported;
  }

  lemma {:induction false} FinishedReaches(g: Graph, done: seq<Id>, cycles: seq<seq<Id>>, p: seq<Id>)
    requires Searched(g, [], done, cycles) && IsWalk(g, p) && p[0] in done
    ensures p[|p| - 1] in done
    decreases |p|
  {
    hide Reported;
    if |p| > 1 {
      assert Edge(g, p[0], p[1]);
      var i :| 0 <= i < |done| && done[i] == p[0];
      var q := p[1..];
      forall n | 0 <= n < |q| - 1 ensures Edge(g, q[n], q[n + 1]) {
        assert Edge(g, p[n + 1], p[n + 2]);
      }
      FinishedReaches(g, done, cycles, q);
    }
  }

  /** A search that comes to `y` first meets the dependency of the empty ID on it from below, and reports `y` alone. */
  lemma StartIsReportedAlone(g: Graph, done: seq<Id>, cycles: seq<seq<Id>>, y: Id)
    requires Searched(g, [], done, cycles) && done != [] && done[|done| - 1] == y
    requires y != "" && Edge(g, "", y) && Reaches(g, y, "")
    ensures [y] in cycles
  {
    var p :| IsWalkBetween(g, p, y, "");
    FinishedReaches(g, done, cycles, p);
    var i :| 0 <= i < |done| && done[i] == "";
    assert Edge(g, done[i], y);
    assert Reported(cycles, "", y);
  }

  /** `DetectCycles`, for the order in which the map of unfinished tasks is walked. It reports nothing iff the
      dependencies between unfinished tasks have no cycle, and otherwise some dependency of each cycle; every report
      starts at its smallest ID and appears once, and is a simple cycle unless the empty ID lies on one with another
      task. */
  method Detect(tasks: seq<TicketTask>, order: seq<Id>)
    returns (cycles: seq<seq<Id>>, ghost g: Graph, ghost met: seq<seq<Id>>)
    requires forall id :: id in order <==> Active(tasks, id)
    ensures forall id :: id in g <==> Active(tasks, id)
    ensures forall a, b :: Edge(g, a, b) <==> Waits(tasks, a, b) && Active(tasks, b)
    ensures cycles == [] <==> Acyclic(g)
    ensures forall c | c in cycles :: IsReport(g, c)
    ensures forall i, j | 0 <= i < j < |cycles| :: cycles[i] != cycles[j]
    ensures HitsEveryCycle(g, met) && (StartsBehindEmpty(g, order) ==> [order[0]] in met)
    ensures SameTexts(cycles, met)
    ensures (forall id | Active(tasks, id) :: Plain(id)) ==> forall c :: c in cycles <==> c in met
  {
    hide Active, Waits, Live, IsReport, HitsEveryCycle, StartsBehindEmpty, Acyclic, Key, Plain;
    var adj := BuildAdjacency(tasks);
    g := Live(adj);
    LiveKeys(adj);
    forall a, b ensures Edge(g, a, b) <==> Waits(tasks, a, b) && Active(tasks, b) {
      LiveEdges(adj, a, b);
    }
    var all := SearchAll(adj, order);
    met := all;
    cycles := DeduplicateCycles(all);
    assert cycles != [] ==> cycles[0] in cycles;
    if all != [] {
      assert all[0] in all;
      ghost var u :| u in cycles && Key(u) == Key(all[0]);
    }
    if forall id | Active(tasks, id) :: Plain(id) {
      PlainReportsStay(g, all, cycles);
    }
  }

  lemma PlainReportsStay(g: Graph, all: seq<seq<Id>>, kept: seq<seq<Id>>)
    requires (forall c | c in all :: IsReport(g, c)) && (forall c | c in kept :: c in all)
    requires (forall id | id in g :: Plain(id)) && SameTexts(kept, all)
    ensures forall c :: c in kept <==> c in all
  {
    hide SameTexts, Key, Plain, IsReport;
    forall c | c in all ensures c in kept {
      var u := SameText(kept, all, c);
      SameReport(g, c, u);
    }
  }

  lemma SameText(kept: seq<seq<Id>>, all: seq<seq<Id>>, c: seq<Id>) returns (u: seq<Id>)
    requires SameTexts(kept, all) && c in all
    ensures u in kept && Key(u) == Key(c)
  {
    u :| u in kept && Key(u) == Key(c);
  }

  lemma SameReport(g: Graph, c: seq<Id>, d: seq<Id>)
    requires (forall id | id in g :: Plain(id)) && IsReport(g, c) && IsReport(g, d) && Key(c) == Key(d)
    ensures c == d
  {
    hide Key, Plain, IsCycle, OnLongerCycle, Less;
    KeyInjective(c, d);
  }

  lemma LiveKeys(adj: Graph)
    ensures Live(adj).Keys == adj.Keys
  {
  }

  /** When the empty ID lies on a longer cycle, some walk of the map spoils the report: one that starts at a
      dependency `y` of the empty ID. The list `[y]` it then contains is no cycle, unless `y` also depends on
      itself. */
  lemma LongerCycleSpoils(g: Graph, rest: seq<Id>) returns (y: Id)
    requires OnLongerCycle(g)
    ensures y in g && StartsBehindEmpty(g, [y] + rest) && (IsCycle(g, [y]) <==> Edge(g, y, y))
  {
    hide OnLongerCycle, Reaches;
    y := LongerCycleLeaves(g);
    OneIsCycleIff(g, y);
    ReachesFrom(g, y, "");
  }

  lemma ReachesFrom(g: Graph, x: Id, y: Id)
    requires Reaches(g, x, y)
    ensures x in g
  {
    var p :| IsWalkBetween(g, p, x, y);
    assert Edge(g, p[0], p[1]);
  }

  function Pair(): seq<TicketTask> {
    [TicketTask("a", Pending, "", [""], "run", "", 0), TicketTask("", Pending, "", ["a"], "run", "", 0)]
  }

  lemma PairWaits()
    ensures forall id :: id in ["a", ""] <==> Active(Pair(), id)
    ensures forall id | Active(Pair(), id) :: Plain(id)
    ensures forall x, y :: Waits(Pair(), x, y) <==> (x == "a" && y == "") || (x == "" && y == "a")
  {
    assert Pair()[0].id == "a" && Pair()[1].id == "";
    assert "" in Pair()[0].deps && "a" in Pair()[1].deps;
  }

  lemma StartsInPair(g: Graph)
    requires Edge(g, "", "a") && Reaches(g, "a", "")
    ensures StartsBehindEmpty(g, ["a", ""]) && ["a", ""][0] == "a"
  {
  }

  lemma OneIsCycleIff(g: Graph, y: Id)
    ensures IsCycle(g, [y]) <==> Edge(g, y, y)
  {
  }

  /** Two tasks that wait for each other, one without an ID: the report names the other one alone, which does not wait
      for itself. */
  method EmptyIdSpoilsReport() returns (cycles: seq<seq<Id>>, ghost g: Graph)
    ensures forall x, y :: Edge(g, x, y) <==> (x == "a" && y == "") || (x == "" && y == "a")
    ensures ["a"] in cycles && !IsCycle(g, ["a"])
  {
    hide *;
    PairWaits();
    ghost var met;
    cycles, g, met := Detect(Pair(), ["a", ""]);
    EdgeReaches(g, "a", "");
    StartsInPair(g);
    OneIsCycleIff(g, "a");
  }

  /** The search from every unfinished task, in the given order. */
  method SearchAll(adj: Graph, order: seq<Id>) returns (cycles: seq<seq<Id>>)
    requires forall id :: id in order <==> id in adj
    ensures cycles == [] <==> Acyclic(Live(adj))
    ensures forall c | c in cycles :: IsReport(Live(adj), c)
    ensures HitsEveryCycle(Live(adj), cycles) && (StartsBehindEmpty(Live(adj), order) ==> [order[0]] in cycles)
  {
    hide Coloured, Searched, IsReport, Acyclic, Live, Parents, HitsEveryCycle, Reaches;
    LiveKeys(adj);
    var finder := new CycleFinder(adj);
    for i := 0 to |order|
      invariant finder.Valid() && finder.stack == [] && finder.adj == adj
      invariant i == 0 ==> finder.done == []
      invariant forall j | 0 <= j < i :: order[j] in finder.done
      invariant i > 0 && StartsBehindEmpty(Live(adj), order) ==> [order[0]] in finder.cycles
    {
      var id := order[i];
      PathState(Live(adj), finder.color, [], finder.done, id);
      if ColorOf(finder.color, id) == White {
        ghost var before := finder.done;
        finder.Dfs(id);
        assert forall j | 0 <= j < i :: order[j] in before;
      }
      if i == 0 && StartsBehindEmpty(Live(adj), order) {
        StartIsReportedAlone(Live(adj), finder.done, finder.cycles, id);
      }
    }
    cycles := finder.cycles;
    EveryCycleIsHit(Live(adj), finder.done, cycles);
    if cycles == [] {
      NothingReported(Live(adj));
    }
  }
}

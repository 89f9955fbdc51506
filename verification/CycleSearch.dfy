/** The plan checker's three-colour depth-first search. */
module CycleSearch {
  import opened Graphs

  datatype Color = White | Gray | Black

  function ColorOf(color: map<Id, Color>, x: Id): Color {
    if x in color then color[x] else White
  }

  /** The gray nodes are those of the path being explored, the black ones those listed as finished. */
  ghost predicate Coloured(adj: Graph, color: map<Id, Color>, stack: seq<Id>, done: seq<Id>) {
    && (forall x :: ColorOf(color, x) == Gray <==> x in stack)
    && (forall x :: ColorOf(color, x) == Black <==> x in done)
    && (forall i | 0 <= i < |stack| - 1 :: Edge(adj, stack[i], stack[i + 1]))
    && (forall i, j | 0 <= i < j < |stack| :: stack[i] != stack[j])
  }

  /** And the finished ones are listed after everything they depend on. */
  ghost predicate Searching(adj: Graph, color: map<Id, Color>, stack: seq<Id>, done: seq<Id>) {
    Coloured(adj, color, stack, done) && Topological(adj, done)
  }

  /** Every dependency of a listed node is listed before it, and no node is listed twice. */
  ghost predicate Topological(adj: Graph, done: seq<Id>) {
    && (forall i, b | 0 <= i < |done| && Edge(adj, done[i], b) :: exists j :: 0 <= j < i && done[j] == b)
    && (forall i, j | 0 <= i < j < |done| :: done[i] != done[j])
  }

  lemma {:induction false} TopologicalWalk(adj: Graph, done: seq<Id>, p: seq<Id>, i: nat) returns (j: nat)
    requires Topological(adj, done) && IsWalk(adj, p) && i < |done| && done[i] == p[0]
    ensures j + |p| - 1 <= i && done[j] == p[|p| - 1]
    decreases |p|
  {
    if |p| == 1 {
      j := i;
    } else {
      assert Edge(adj, p[0], p[1]);
      var k :| 0 <= k < i && done[k] == p[1];
      forall q | 0 <= q < |p[1..]| - 1 ensures Edge(adj, p[1..][q], p[1..][q + 1]) {
        assert Edge(adj, p[q + 1], p[q + 2]);
      }
      j := TopologicalWalk(adj, done, p[1..], k);
    }
  }

  /** No listed node lies on a cycle. */
  lemma TopologicalNoCycle(adj: Graph, done: seq<Id>, x: Id)
    requires Topological(adj, done) && x in done
    ensures !Reaches(adj, x, x)
  {
    var i :| 0 <= i < |done| && done[i] == x;
    if p :| IsWalkBetween(adj, p, x, x) {
      var j := TopologicalWalk(adj, done, p, i);
      assert false;
    }
  }

  lemma BackEdgeCycle(adj: Graph, stack: seq<Id>, dep: Id)
    requires stack != [] && dep in stack && Edge(adj, stack[|stack| - 1], dep)
    requires forall i | 0 <= i < |stack| - 1 :: Edge(adj, stack[i], stack[i + 1])
    ensures Reaches(adj, dep, dep)
  {
    var i :| 0 <= i < |stack| && stack[i] == dep;
    var c := stack[i..] + [dep];
    forall k | 0 <= k < |c| - 1 ensures Edge(adj, c[k], c[k + 1]) {
      if k < |c| - 2 { assert Edge(adj, stack[i + k], stack[i + k + 1]); }
    }
    assert IsWalkBetween(adj, c, dep, dep);
  }

  function Nodes(adj: Graph): set<Id> {
    adj.Keys + (set a, b | a in adj && b in adj[a] :: b)
  }

  lemma Enter(adj: Graph, color: map<Id, Color>, stack: seq<Id>, done: seq<Id>, node: Id)
    requires Coloured(adj, color, stack, done) && ColorOf(color, node) == White
    requires stack != [] ==> Edge(adj, stack[|stack| - 1], node)
    ensures Coloured(adj, color[node := Gray], stack + [node], done)
  {
    hide Edge;
    assert node !in stack && node !in done;
  }

  lemma Leave(adj: Graph, color: map<Id, Color>, before: seq<Id>, node: Id, done: seq<Id>)
    requires Coloured(adj, color, before + [node], done)
    ensures Coloured(adj, color[node := Black], before, done + [node])
    ensures node !in done
  {
    var stack, longer := before + [node], done + [node];
    assert stack[|before|] == node && node in stack && node !in done;
    forall i | 0 <= i < |before| ensures before[i] != node && before[i] in stack {
      assert stack[i] == before[i];
    }
    forall x ensures x in before <==> x in stack && x != node {
    }
    forall x ensures x in longer <==> x in done || x == node {
    }
    forall i, j | 0 <= i < j < |before| ensures before[i] != before[j] {
      assert stack[i] == before[i] && stack[j] == before[j];
    }
    forall i | 0 <= i < |before| - 1 ensures Edge(adj, before[i], before[i + 1]) {
      assert stack[i] == before[i] && stack[i + 1] == before[i + 1];
    }
  }

  lemma ListNode(adj: Graph, done: seq<Id>, node: Id)
    requires Topological(adj, done) && node !in done
    requires forall b | Edge(adj, node, b) :: b in done
    ensures Topological(adj, done + [node])
  {
    var longer := done + [node];
    forall i, b | 0 <= i < |longer| && Edge(adj, longer[i], b) ensures exists j :: 0 <= j < i && longer[j] == b {
      var j :| 0 <= j < i && j < |done| && done[j] == b;
      assert longer[j] == b;
    }
  }

  lemma EnterSearch(adj: Graph, color: map<Id, Color>, stack: seq<Id>, done: seq<Id>, node: Id)
    requires Searching(adj, color, stack, done) && ColorOf(color, node) == White
    requires stack != [] ==> Edge(adj, stack[|stack| - 1], node)
    ensures Searching(adj, color[node := Gray], stack + [node], done)
  {
    hide Coloured, Topological, Edge;
    Enter(adj, color, stack, done, node);
  }

  lemma LeaveSearch(adj: Graph, color: map<Id, Color>, before: seq<Id>, node: Id, done: seq<Id>)
    requires Searching(adj, color, before + [node], done)
    requires node in adj ==> forall j | 0 <= j < |adj[node]| :: adj[node][j] in done
    ensures Searching(adj, color[node := Black], before, done + [node])
  {
    hide Coloured, Topological;
    Leave(adj, color, before, node, done);
    ListNode(adj, done, node);
  }

  ghost function Whites(universe: set<Id>, color: map<Id, Color>): set<Id> {
    set x | x in universe && ColorOf(color, x) == White
  }

  lemma SeenFalls(universe: set<Id>, color: map<Id, Color>, node: Id)
    requires node in universe && ColorOf(color, node) == White
    ensures Whites(universe, color[node := Gray]) < Whites(universe, color)
  {
    assert node in Whites(universe, color) && node !in Whites(universe, color[node := Gray]);
  }

  lemma SeenStays(universe: set<Id>, color: map<Id, Color>, node: Id)
    ensures Whites(universe, color[node := Black]) <= Whites(universe, color)
  {
  }

  lemma DependencyEdge(adj: Graph, node: Id, i: nat)
    requires node in adj && i < |adj[node]|
    ensures Edge(adj, node, adj[node][i]) && adj[node][i] in Nodes(adj)
  {
    assert Edge(adj, node, adj[node][i]);
  }

  class CycleSearcher {
    var color: map<Id, Color>
    const adj: Graph
    var cycleNode: Id
    ghost const universe: set<Id>
    ghost var stack: seq<Id>
    ghost var done: seq<Id>

    ghost predicate Valid()
      reads this
    {
      Nodes(adj) <= universe && Searching(adj, color, stack, done)
    }

    /** Nodes the search has not reached. */
    ghost function Unseen(): set<Id>
      reads this
    {
      Whites(universe, color)
    }

    constructor (adj: Graph, ghost roots: set<Id>)
      ensures Valid() && this.adj == adj && stack == [] && done == [] && universe == Nodes(adj) + roots
    {
      this.adj := adj;
      universe := Nodes(adj) + roots;
      color := map[];
      cycleNode := "";
      stack, done := [], [];
    }

    /** `dfs`: true exactly when it has met a cycle, and then `cycleNode` is on it; otherwise the node and all it
        depends on are added to the topological list. */
    method Dfs(node: Id) returns (found: bool)
      requires Valid() && ColorOf(color, node) == White && node in universe
      requires stack != [] ==> Edge(adj, stack[|stack| - 1], node)
      modifies this
      ensures found ==> Reaches(adj, cycleNode, cycleNode)
      ensures !found ==> Valid() && stack == old(stack) && old(done) <= done && node in done
      ensures !found ==> Unseen() <= old(Unseen())
      decreases Unseen()
    {
      hide Coloured, Topological, Reaches, Searching, Edge, Nodes, Whites;
      ghost var before, sofar, unseen := stack, done, Unseen();
      EnterSearch(adj, color, stack, done, node);
      SeenFalls(universe, color, node);
      color := color[node := Gray];
      stack := stack + [node];
      var deps := if node in adj then adj[node] else [];
      for i := 0 to |deps|
        invariant Valid() && stack == before + [node] && sofar <= done
        invariant forall j | 0 <= j < i :: deps[j] in done
        invariant Unseen() < unseen
      {
        var dep := deps[i];
        StateOf(adj, color, stack, done, dep);
        DependencyEdge(adj, node, i);
        match ColorOf(color, dep) {
          case Gray =>
            cycleNode := dep;
            BackEdgeCycle(adj, stack, dep);
            return true;
          case White =>
            var deeper := Dfs(dep);
            if deeper {
              return true;
            }
          case Black =>
        }
      }
      LeaveSearch(adj, color, before, node, done);
      SeenStays(universe, color, node);
      color := color[node := Black];
      stack := before;
      done := done + [node];
      return false;
    }
  }

  lemma StateOf(adj: Graph, color: map<Id, Color>, stack: seq<Id>, done: seq<Id>, x: Id)
    requires Searching(adj, color, stack, done)
    ensures ColorOf(color, x) == Gray ==> x in stack
    ensures ColorOf(color, x) == Black <==> x in done
    ensures forall i | 0 <= i < |stack| - 1 :: Edge(adj, stack[i], stack[i + 1])
    ensures Topological(adj, done) && Coloured(adj, color, stack, done)
  {
  }

  /** `findCycleInGraph`: a node reported lies on a cycle; when none is, there is a topological order of
      every (non-empty) ID searched and all it depends on. */
  method FindCycleInGraph(ids: seq<Id>, adj: Graph) returns (cycleNode: Id, found: bool, ghost order: seq<Id>)
    ensures found ==> Reaches(adj, cycleNode, cycleNode)
    ensures !found ==> cycleNode == "" && Topological(adj, order) && forall x | x in ids && x != "" :: x in order
  {
    var cs := new CycleSearcher(adj, SetOf(ids));
    for i := 0 to |ids|
      invariant cs.Valid() && cs.stack == [] && SetOf(ids) <= cs.universe && cs.adj == adj
      invariant forall j | 0 <= j < i && ids[j] != "" :: ids[j] in cs.done
    {
      hide Searching;
      var id := ids[i];
      assert id in SetOf(ids);
      StateOf(adj, cs.color, cs.stack, cs.done, id);
      if id != "" && ColorOf(cs.color, id) == White {
        var deeper := cs.Dfs(id);
        if deeper {
          return cs.cycleNode, true, [];
        }
      } else if id != "" {
        assert ColorOf(cs.color, id) != Gray;
      }
    }
    return "", false, cs.done;
  }

  /** When the IDs searched include every node with dependencies and none of them is empty, the search
      answers exactly whether the graph has a cycle. */
  lemma NotFoundIsAcyclic(ids: seq<Id>, adj: Graph, order: seq<Id>)
    requires Topological(adj, order) && forall x | x in ids && x != "" :: x in order
    requires forall x | x in adj && x != "" :: x in ids
    requires forall x :: !Edge(adj, x, "")
    ensures Acyclic(adj)
  {
    forall x ensures !Reaches(adj, x, x) {
      if p :| IsWalkBetween(adj, p, x, x) {
        assert Edge(adj, p[0], p[1]) && Edge(adj, p[|p| - 2], p[|p| - 1]);
        TopologicalNoCycle(adj, order, x);
        assert false;
      }
    }
  }
}

/** Dependency graphs: walks, cycles, and the rank that an acyclic graph has. */
module Graphs {
  type Id = string

  /** Each known node with the IDs it depends on; an ID that is not a key is unknown. */
  type Graph = map<Id, seq<Id>>

  function SetOf<T>(s: seq<T>): set<T> {
    set x | x in s
  }

  /** The IDs of a list other than `id`, in order. */
  function Without(ids: seq<Id>, id: Id): seq<Id> {
    if ids == [] then []
    else
      var front := Without(ids[..|ids| - 1], id);
      if ids[|ids| - 1] == id then front else front + [ids[|ids| - 1]]
  }

  /** The list is filtered piece by piece: every other entry stays, as often as it was there and where it was. */
  lemma {:induction false} WithoutConcat(a: seq<Id>, b: seq<Id>, id: Id)
    ensures Without(a + b, id) == Without(a, id) + Without(b, id)
    ensures Without([id], id) == [] && forall x | x != id :: Without([x], id) == [x]
  {
    if b == [] {
      assert a + b == a;
    } else {
      assert (a + b)[..|a + b| - 1] == a + b[..|b| - 1];
      WithoutConcat(a, b[..|b| - 1], id);
    }
  }

  lemma {:induction false} WithoutMembers(ids: seq<Id>, id: Id)
    ensures forall x :: x in Without(ids, id) <==> x in ids && x != id
  {
    if ids != [] {
      assert ids == ids[..|ids| - 1] + [ids[|ids| - 1]];
      WithoutMembers(ids[..|ids| - 1], id);
    }
  }

  predicate Edge(g: Graph, a: Id, b: Id) {
    a in g && b in g[a]
  }

  ghost predicate IsWalk(g: Graph, p: seq<Id>) {
    && p != []
    && forall i | 0 <= i < |p| - 1 :: Edge(g, p[i], p[i + 1])
  }

  ghost predicate IsWalkBetween(g: Graph, p: seq<Id>, a: Id, b: Id) {
    IsWalk(g, p) && |p| >= 2 && p[0] == a && p[|p| - 1] == b
  }

  /** There is a chain of one or more dependencies from `a` to `b`. */
  ghost predicate Reaches(g: Graph, a: Id, b: Id) {
    exists p :: IsWalkBetween(g, p, a, b)
  }

  ghost predicate Acyclic(g: Graph) {
    forall x :: !Reaches(g, x, x)
  }

  lemma EdgeReaches(g: Graph, a: Id, b: Id)
    requires Edge(g, a, b)
    ensures Reaches(g, a, b)
  {
    assert IsWalkBetween(g, [a, b], a, b);
  }

  lemma ReachesTransitive(g: Graph, a: Id, b: Id, c: Id)
    requires Reaches(g, a, b) && Reaches(g, b, c)
    ensures Reaches(g, a, c)
  {
    var p :| IsWalkBetween(g, p, a, b);
    var q :| IsWalkBetween(g, q, b, c);
    var w := p + q[1..];
    forall i | 0 <= i < |w| - 1
      ensures Edge(g, w[i], w[i + 1])
    {
      if i < |p| - 1 {
        assert w[i] == p[i] && w[i + 1] == p[i + 1];
      } else {
        assert w[i] == q[i - |p| + 1] && w[i + 1] == q[i - |p| + 2];
      }
    }
    assert IsWalkBetween(g, w, a, c);
  }

  /** A rank that every dependency lowers rules out cycles. */
  ghost predicate Ranked(g: Graph, rank: Id -> int) {
    forall a, b | Edge(g, a, b) :: rank(a) > rank(b)
  }

  lemma {:induction false} WalkDescends(g: Graph, rank: Id -> int, p: seq<Id>)
    requires Ranked(g, rank) && IsWalk(g, p)
    ensures rank(p[0]) - rank(p[|p| - 1]) >= |p| - 1
  {
    if |p| > 1 {
      assert IsWalk(g, p[1..]) by {
        forall i | 0 <= i < |p[1..]| - 1 ensures Edge(g, p[1..][i], p[1..][i + 1]) {
          assert Edge(g, p[i + 1], p[i + 2]);
        }
      }
      WalkDescends(g, rank, p[1..]);
      assert Edge(g, p[0], p[1]);
    }
  }

  lemma RankedAcyclic(g: Graph, rank: Id -> int)
    requires Ranked(g, rank)
    ensures Acyclic(g)
  {
    forall x ensures !Reaches(g, x, x) {
      if p :| IsWalkBetween(g, p, x, x) {
        WalkDescends(g, rank, p);
      }
    }
  }

  // ----- longest chains -----

  /** `d` is the length of the longest dependency chain that starts at `x`. */
  ghost predicate IsDepth(g: Graph, x: Id, d: nat) {
    && (exists p :: IsWalk(g, p) && p[0] == x && |p| == d + 1)
    && (forall p | IsWalk(g, p) && p[0] == x :: |p| <= d + 1)
  }

  /** Longest chain from `x` that has at most `fuel` dependencies. */
  function Deepest(g: Graph, x: Id, fuel: nat): nat
    decreases fuel, 0
  {
    if fuel == 0 || x !in g then 0 else DeepestOf(g, g[x], fuel - 1)
  }

  /** One more than the deepest of `deps`, or 0 when there are none. */
  function DeepestOf(g: Graph, deps: seq<Id>, fuel: nat): nat
    decreases fuel, |deps| + 1
  {
    if deps == [] then 0
    else
      var d, rest := Deepest(g, deps[|deps| - 1], fuel) + 1, DeepestOf(g, deps[..|deps| - 1], fuel);
      if d > rest then d else rest
  }

  lemma {:induction false} DeepestOfIsMax(g: Graph, deps: seq<Id>, fuel: nat)
    ensures forall b | b in deps :: Deepest(g, b, fuel) + 1 <= DeepestOf(g, deps, fuel)
    ensures deps == [] ==> DeepestOf(g, deps, fuel) == 0
    ensures deps != [] ==> exists b | b in deps :: DeepestOf(g, deps, fuel) == Deepest(g, b, fuel) + 1
  {
    if deps != [] {
      var front, last := deps[..|deps| - 1], deps[|deps| - 1];
      DeepestOfIsMax(g, front, fuel);
      assert last in deps;
      forall b | b in deps ensures Deepest(g, b, fuel) + 1 <= DeepestOf(g, deps, fuel) {
        assert b == last || b in front;
      }
      if DeepestOf(g, deps, fuel) == Deepest(g, last, fuel) + 1 {
      } else {
        var b :| b in front && DeepestOf(g, front, fuel) == Deepest(g, b, fuel) + 1;
        assert b in deps;
      }
    }
  }

  lemma {:induction false} DeepestWalk(g: Graph, x: Id, fuel: nat) returns (p: seq<Id>)
    ensures IsWalk(g, p) && p[0] == x && |p| == Deepest(g, x, fuel) + 1
    decreases fuel
  {
    p := [x];
    if fuel > 0 && x in g && g[x] != [] {
      DeepestOfIsMax(g, g[x], fuel - 1);
      var b :| b in g[x] && DeepestOf(g, g[x], fuel - 1) == Deepest(g, b, fuel - 1) + 1;
      var q := DeepestWalk(g, b, fuel - 1);
      p := [x] + q;
      assert Edge(g, x, b);
    }
  }

  lemma {:induction false} DeepestBounds(g: Graph, p: seq<Id>, fuel: nat)
    requires IsWalk(g, p) && |p| <= fuel + 1
    ensures |p| <= Deepest(g, p[0], fuel) + 1
  {
    if |p| > 1 {
      assert Edge(g, p[0], p[1]);
      forall i | 0 <= i < |p[1..]| - 1 ensures Edge(g, p[1..][i], p[1..][i + 1]) {
        assert Edge(g, p[i + 1], p[i + 2]);
      }
      DeepestBounds(g, p[1..], fuel - 1);
      DeepestOfIsMax(g, g[p[0]], fuel - 1);
    }
  }

  /** A sequence longer than the set its elements come from repeats one of them. */
  lemma {:induction false} Pigeonhole<T>(p: seq<T>, nodes: set<T>)
    requires forall i | 0 <= i < |p| :: p[i] in nodes
    requires |p| > |nodes|
    ensures exists i, j :: 0 <= i < j < |p| && p[i] == p[j]
  {
    var last := p[|p| - 1];
    if i :| 0 <= i < |p| - 1 && p[i] == last {
    } else {
      Pigeonhole(p[..|p| - 1], nodes - {last});
      var i, j :| 0 <= i < j < |p| - 1 && p[..|p| - 1][i] == p[..|p| - 1][j];
      assert p[i] == p[j];
    }
  }

  lemma AcyclicBoundsWalks(g: Graph, p: seq<Id>)
    requires Acyclic(g) && IsWalk(g, p)
    ensures |p| <= |g| + 1
  {
    if |p| > |g| + 1 {
      var front := p[..|p| - 1];
      forall i | 0 <= i < |front| ensures front[i] in g.Keys {
        assert Edge(g, p[i], p[i + 1]);
      }
      assert |g.Keys| == |g|;
      Pigeonhole(front, g.Keys);
      var i, j :| 0 <= i < j < |front| && front[i] == front[j];
      var c := p[i..j + 1];
      forall k | 0 <= k < |c| - 1 ensures Edge(g, c[k], c[k + 1]) {
        assert Edge(g, p[i + k], p[i + k + 1]);
      }
      assert IsWalkBetween(g, c, p[i], p[i]);
      assert Reaches(g, p[i], p[i]);
      assert false;
    }
  }

  /** Longest chain from `x` in an acyclic graph. */
  function Depth(g: Graph, x: Id): nat {
    Deepest(g, x, |g|)
  }

  lemma DepthIsDepth(g: Graph, x: Id)
    requires Acyclic(g)
    ensures IsDepth(g, x, Depth(g, x))
  {
    var p := DeepestWalk(g, x, |g|);
    forall q | IsWalk(g, q) && q[0] == x ensures |q| <= Depth(g, x) + 1 {
      AcyclicBoundsWalks(g, q);
      DeepestBounds(g, q, |g|);
    }
  }

  /** A dependency is strictly shallower, and a node is just one deeper than its deepest dependency. */
  lemma DepthStep(g: Graph, x: Id)
    requires Acyclic(g)
    ensures forall b | Edge(g, x, b) :: Depth(g, b) < Depth(g, x)
    ensures Depth(g, x) > 0 ==> exists b :: Edge(g, x, b) && Depth(g, b) == Depth(g, x) - 1
  {
    DepthIsDepth(g, x);
    forall b | Edge(g, x, b) ensures Depth(g, b) < Depth(g, x) {
      DepthIsDepth(g, b);
      var p :| IsWalk(g, p) && p[0] == b && |p| == Depth(g, b) + 1;
      var q := [x] + p;
      assert IsWalk(g, q);
    }
    if Depth(g, x) > 0 {
      var p :| IsWalk(g, p) && p[0] == x && |p| == Depth(g, x) + 1;
      var b := p[1];
      assert Edge(g, p[0], p[1]);
      DepthIsDepth(g, b);
      assert IsWalk(g, p[1..]) by {
        forall i | 0 <= i < |p[1..]| - 1 ensures Edge(g, p[1..][i], p[1..][i + 1]) {
          assert Edge(g, p[i + 1], p[i + 2]);
        }
      }
      assert |p[1..]| <= Depth(g, b) + 1;
      assert Edge(g, x, b) && Depth(g, b) == Depth(g, x) - 1;
    }
  }

  /** A graph has no cycle exactly when some rank falls along every dependency. */
  lemma AcyclicIffRanked(g: Graph)
    ensures Acyclic(g) <==> exists rank: Id -> int :: Ranked(g, rank)
  {
    if Acyclic(g) {
      var rank: Id -> int := x => Depth(g, x);
      forall a, b | Edge(g, a, b) ensures rank(a) > rank(b) {
        DepthStep(g, a);
      }
      assert Ranked(g, rank);
    }
    if rank: Id -> int :| Ranked(g, rank) {
      RankedAcyclic(g, rank);
    }
  }
}

/** Pushing one task to the next wave and cascading its dependents. */
module Cascade {
  import opened Graphs
  import opened WaveLayout

  /** Every known dependency sits in a strictly earlier wave than its dependent. */
  ghost predicate Ordered(g: Graph, w: map<Id, nat>) {
    forall d, t | Edge(g, d, t) && d in w && t in w :: w[t] < w[d]
  }

  /** `d` depends on `t` and sits in the very next wave, so it must follow when `t` moves. */
  predicate Tight(g: Graph, w: map<Id, nat>, t: Id, d: Id) {
    t in w && d in w && Edge(g, d, t) && w[d] == w[t] + 1
  }

  /** `s` is `m` together with everything tight edges force to move with it: nothing more, nothing less. */
  ghost predicate ForcedBy(g: Graph, w: map<Id, nat>, m: Id, s: set<Id>) {
    && m in s && s <= w.Keys
    && (forall t, d | t in s && Tight(g, w, t, d) :: d in s)
    && (forall d | d in s && d != m :: exists t :: t in s && Tight(g, w, t, d))
  }

  lemma {:induction false} ForcedContained(g: Graph, w: map<Id, nat>, m: Id, s: set<Id>, r: set<Id>, d: Id)
    requires ForcedBy(g, w, m, s) && ForcedBy(g, w, m, r)
    requires d in s
    ensures d in r
    decreases w[d]
  {
    if d != m {
      var t :| t in s && Tight(g, w, t, d);
      ForcedContained(g, w, m, s, r, t);
    }
  }

  /** The set of tasks a move drags along is determined by the layout before it. */
  lemma ForcedUnique(g: Graph, w: map<Id, nat>, m: Id, s: set<Id>, r: set<Id>)
    requires ForcedBy(g, w, m, s) && ForcedBy(g, w, m, r)
    ensures s == r
  {
    forall d | d in s ensures d in r { ForcedContained(g, w, m, s, r, d); }
    forall d | d in r ensures d in s { ForcedContained(g, w, m, r, s, d); }
  }

  /** Every task of `s` one wave later, every other task where it was. */
  function Bump(w: map<Id, nat>, s: set<Id>): map<Id, nat> {
    map id | id in w :: if id in s then w[id] + 1 else w[id]
  }

  /** A forced move keeps dependency order. */
  lemma BumpKeepsOrder(g: Graph, w: map<Id, nat>, m: Id, s: set<Id>)
    requires Ordered(g, w) && ForcedBy(g, w, m, s)
    ensures Ordered(g, Bump(w, s))
  {
    var v := Bump(w, s);
    forall d, t | Edge(g, d, t) && d in v && t in v
      ensures v[t] < v[d]
    {
      if t in s && d !in s {
        assert !Tight(g, w, t, d);
      }
    }
  }

  /** Waves `0 .. n-1` all hold a task, and no task lies beyond them. */
  ghost predicate Full(w: map<Id, nat>, n: nat) {
    && (forall id | id in w :: w[id] < n)
    && (forall k {:trigger Holds(w, k)} | 0 <= k < n :: Holds(w, k))
  }

  ghost predicate Holds(w: map<Id, nat>, k: nat) {
    exists id :: id in w && w[id] == k
  }

  /** A forced move leaves no wave empty when another task stays in the moved task's wave. */
  lemma BumpKeepsFull(g: Graph, w: map<Id, nat>, n: nat, m: Id, s: set<Id>, other: Id, n': nat)
    requires Full(w, n) && Ordered(g, w) && ForcedBy(g, w, m, s)
    requires other in w && other != m && w[other] == w[m]
    requires n <= n' <= n + 1
    requires forall id | id in w :: Bump(w, s)[id] < n'
    requires n' == n + 1 ==> exists id :: id in w && Bump(w, s)[id] == n
    ensures Full(Bump(w, s), n')
  {
    var v := Bump(w, s);
    forall k | 0 <= k < n' ensures Holds(v, k) {
      if k < n {
        assert Holds(w, k);
        var id :| id in w && w[id] == k;
        if id !in s {
          assert v[id] == k;
        } else if id == m {
          if other in s {
            var t :| t in s && Tight(g, w, t, other);
            ForcedLater(g, w, m, s, t);
            assert false;
          }
          assert v[other] == k;
        } else {
          var t :| t in s && Tight(g, w, t, id);
          assert v[t] == k;
        }
      } else {
        var id :| id in w && v[id] == n;
        assert v[id] == k;
      }
    }
  }

  lemma {:induction false} ForcedLater(g: Graph, w: map<Id, nat>, m: Id, s: set<Id>, d: Id)
    requires ForcedBy(g, w, m, s) && d in s
    ensures w[d] >= w[m]
    decreases w[d]
  {
    if d != m {
      var t :| t in s && Tight(g, w, t, d);
      ForcedLater(g, w, m, s, t);
    }
  }

  /** `reverse[t]` lists the tasks that depend on `t`. */
  ghost predicate IsReverse(g: Graph, reverse: map<Id, seq<Id>>) {
    forall d, t :: Edge(g, d, t) <==> t in reverse && d in reverse[t]
  }

  /** The breadth-first cascade: `moved` tasks are one wave later than in `w`, all others are as in `w`;
      and a moved task no longer in the queue has taken all its tight dependents along. */
  ghost predicate CascadeInvariant(g: Graph, w: map<Id, nat>, m: Id, moved: set<Id>, queue: set<Id>) {
    && m in moved && moved <= w.Keys && queue <= moved
    && (forall t, d | t in moved && t !in queue && Tight(g, w, t, d) :: d in moved)
    && (forall d | d in moved && d != m :: exists t :: t in moved && Tight(g, w, t, d))
  }

  lemma Enqueue(g: Graph, w: map<Id, nat>, m: Id, moved: set<Id>, queue: set<Id>, t: Id, d: Id)
    requires CascadeInvariant(g, w, m, moved, queue)
    requires t in moved && Tight(g, w, t, d) && d !in moved
    ensures CascadeInvariant(g, w, m, moved + {d}, queue + {d})
  {
    forall x | x in moved + {d} && x != m
      ensures exists y :: y in moved + {d} && Tight(g, w, y, x)
    {
      if x != d {
        var y :| y in moved && Tight(g, w, y, x);
        assert y in moved + {d};
      } else {
        assert t in moved + {d} && Tight(g, w, t, x);
      }
    }
  }

  lemma CascadeStarts(g: Graph, w: map<Id, nat>, m: Id)
    requires m in w
    ensures CascadeInvariant(g, w, m, {m}, {m})
  {
  }

  lemma CascadeQueued(g: Graph, w: map<Id, nat>, m: Id, moved: set<Id>, queue: set<Id>, t: Id)
    requires CascadeInvariant(g, w, m, moved, queue) && t in queue
    ensures t in moved && t in w && t in Bump(w, moved) && Bump(w, moved)[t] == w[t] + 1
  {
  }

  lemma CascadePops(g: Graph, w: map<Id, nat>, m: Id, moved: set<Id>, queue: set<Id>, t: Id)
    requires CascadeInvariant(g, w, m, moved, queue + {t})
    requires forall d | Tight(g, w, t, d) :: d in moved
    ensures CascadeInvariant(g, w, m, moved, queue)
  {
  }

  lemma CascadeProgress(g: Graph, w: map<Id, nat>, m: Id, before: set<Id>, moved: set<Id>, queue: set<Id>)
    requires CascadeInvariant(g, w, m, moved, queue)
    requires before < moved
    ensures |w.Keys - moved| < |w.Keys - before|
  {
    CardinalityShrinks(w.Keys - moved, w.Keys - before);
  }

  lemma CascadeEnds(g: Graph, w: map<Id, nat>, m: Id, moved: set<Id>)
    requires CascadeInvariant(g, w, m, moved, {})
    ensures ForcedBy(g, w, m, moved)
  {
  }

  /** The waves `r` that moving `moved` has turned `waves` into: placed as `Bump` says, and a wave
      was added only because a task now sits in it. */
  ghost predicate Reached(waves: seq<Wave>, r: seq<Wave>, w: map<Id, nat>, moved: set<Id>, order: map<Id, nat>) {
    && (forall id | id in w :: w[id] < |waves|)
    && Placed(r, Bump(w, moved), order)
    && NamesExtend(waves, r)
    && (|r| == |waves| || (|r| == |waves| + 1 && Holds(Bump(w, moved), |waves|)))
  }

  /** `findWaveIndex` finds the wave of the layout. */
  method FindPlaced(waves: seq<Wave>, id: Id, ghost w: map<Id, nat>, ghost order: map<Id, nat>) returns (r: int)
    requires Placed(waves, w, order) && id in w
    ensures r == w[id]
  {
    r := FindWave(waves, id);
    assert id in waves[w[id]].tasks;
  }

  /** One step of the cascade: `d`, not moved before, goes one wave on. */
  method PushTask(r: seq<Wave>, d: Id, target: nat, order: map<Id, nat>,
                  ghost waves: seq<Wave>, ghost w: map<Id, nat>, ghost moved: set<Id>)
    returns (r': seq<Wave>)
    requires Injective(order)
    requires Reached(waves, r, w, moved, order)
    requires d in w && d !in moved && target == w[d] + 1
    ensures Reached(waves, r', w, moved + {d}, order)
  {
    hide Placed;
    ghost var v, v' := Bump(w, moved), Bump(w, moved + {d});
    assert v[d] == w[d] && v[d := target] == v';
    r' := MoveTaskToWave(r, d, target, order, v);
    if |r'| > |waves| {
      if |r| == |waves| {
        assert d in v' && v'[d] == |waves|;
      } else {
        ghost var e :| e in v && v[e] == |waves|;
        assert e in v' && v'[e] == |waves|;
      }
    }
  }

  lemma ReachedPlaces(waves: seq<Wave>, r: seq<Wave>, w: map<Id, nat>, moved: set<Id>,
                                         order: map<Id, nat>, d: Id)
    requires Reached(waves, r, w, moved, order) && d in w
    ensures Placed(r, Bump(w, moved), order) && d in Bump(w, moved)
    ensures Bump(w, moved)[d] == if d in moved then w[d] + 1 else w[d]
  {
    hide Placed;
  }

  /** Every task that has moved in between has been queued, once, behind those that were waiting. */
  ghost predicate Queued(before: seq<Id>, queue: seq<Id>, moved0: set<Id>, moved: set<Id>) {
    && before <= queue
    && (forall x :: x in queue[|before|..] <==> x in moved && x !in moved0)
    && (forall i, j | |before| <= i < j < |queue| :: queue[i] != queue[j])
  }

  lemma NothingQueued(queue: seq<Id>, moved: set<Id>)
    ensures Queued(queue, queue, moved, moved)
  {
  }

  lemma QueuedNext(before: seq<Id>, queue: seq<Id>, moved0: set<Id>, moved: set<Id>, d: Id)
    requires Queued(before, queue, moved0, moved) && d !in moved && moved0 <= moved
    ensures Queued(before, queue + [d], moved0, moved + {d})
  {
    var tail := queue[|before|..];
    assert (queue + [d])[|before|..] == tail + [d];
    forall i | |before| <= i < |queue| ensures queue[i] != d {
      assert queue[i] == tail[i - |before|];
      assert queue[i] in tail;
    }
  }

  /** The inner loop of the cascade: every tight dependent of `t` that has not moved yet moves and is queued. */
  method PushDependents(r0: seq<Wave>, t: Id, waveIndex: nat, dependents: seq<Id>, order: map<Id, nat>, queue0: seq<Id>,
                        ghost waves: seq<Wave>, ghost g: Graph, ghost w: map<Id, nat>, ghost m: Id,
                        ghost moved0: set<Id>)
    returns (r: seq<Wave>, queue: seq<Id>, ghost moved: set<Id>)
    requires Injective(order) && g.Keys == w.Keys && Ordered(g, w)
    requires Reached(waves, r0, w, moved0, order)
    requires t in moved0 && CascadeInvariant(g, w, m, moved0, SetOf(queue0) + {t})
    requires waveIndex == w[t] + 1
    requires forall d :: d in dependents <==> Edge(g, d, t)
    ensures Reached(waves, r, w, moved, order)
    ensures CascadeInvariant(g, w, m, moved, SetOf(queue))
    ensures moved0 <= moved && Queued(queue0, queue, moved0, moved) && (moved == moved0 ==> queue == queue0)
  {
    hide Placed, NamesExtend, CascadeInvariant, Holds, Reached, Bump, Injective, Queued;
    r, queue, moved := r0, queue0, moved0;
    CascadeQueued(g, w, m, moved, SetOf(queue0) + {t}, t);
    NothingQueued(queue0, moved0);
    for i := 0 to |dependents|
      invariant t in moved && moved0 <= moved && (moved == moved0 ==> queue == queue0)
      invariant CascadeInvariant(g, w, m, moved, SetOf(queue) + {t})
      invariant forall j | 0 <= j < i && Tight(g, w, t, dependents[j]) :: dependents[j] in moved
      invariant Reached(waves, r, w, moved, order) && Queued(queue0, queue, moved0, moved)
    {
      var d := dependents[i];
      assert Edge(g, d, t) && d in w;
      ReachedPlaces(waves, r, w, moved, order, d);
      var current := FindPlaced(r, d, Bump(w, moved), order);
      if current == waveIndex {
        assert Tight(g, w, t, d) && d !in moved;
        r := PushTask(r, d, waveIndex + 1, order, waves, w, moved);
        Enqueue(g, w, m, moved, SetOf(queue) + {t}, t, d);
        QueuedNext(queue0, queue, moved0, moved, d);
        assert SetOf(queue + [d]) + {t} == SetOf(queue) + {t} + {d};
        moved := moved + {d};
        queue := queue + [d];
      }
    }
    forall d | Tight(g, w, t, d) ensures d in moved {
      assert d in dependents;
    }
    CascadePops(g, w, m, moved, SetOf(queue), t);
  }

  /** `cascadeDependents`, after `m` itself has moved: exactly the forced tasks move, each by exactly
      one wave, and none twice. */
  method CascadeDependents(r0: seq<Wave>, m: Id, reverse: map<Id, seq<Id>>, order: map<Id, nat>,
                           ghost waves: seq<Wave>, ghost g: Graph, ghost w: map<Id, nat>)
    returns (r: seq<Wave>, ghost moved: set<Id>)
    requires m in w && Reached(waves, r0, w, {m}, order) && Injective(order)
    requires IsReverse(g, reverse) && g.Keys == w.Keys && Ordered(g, w)
    ensures ForcedBy(g, w, m, moved)
    ensures Reached(waves, r, w, moved, order)
    ensures forall s | ForcedBy(g, w, m, s) :: Reached(waves, r, w, s, order)
  {
    hide Placed, CascadeInvariant, ForcedBy, Ordered, Bump, NamesExtend;
    r := r0;
    moved := {m};
    var queue := [m];
    CascadeStarts(g, w, m);
    assert SetOf(queue) == {m};
    while |queue| > 0
      invariant CascadeInvariant(g, w, m, moved, SetOf(queue))
      invariant Reached(waves, r, w, moved, order)
      decreases |w.Keys - moved|, |queue|
    {
      var t := queue[0];
      ghost var before := moved;
      CascadeQueued(g, w, m, moved, SetOf(queue), t);
      assert SetOf(queue) == SetOf(queue[1..]) + {t};
      queue := queue[1..];
      var waveIndex := FindPlaced(r, t, Bump(w, moved), order);
      var dependents := if t in reverse then reverse[t] else [];
      r, queue, moved := PushDependents(r, t, waveIndex, dependents, order, queue, waves, g, w, m, moved);
      if moved != before {
        CascadeProgress(g, w, m, before, moved, SetOf(queue));
      }
    }
    assert SetOf(queue) == {};
    CascadeEnds(g, w, m, moved);
    forall s | ForcedBy(g, w, m, s) ensures s == moved {
      ForcedUnique(g, w, m, s, moved);
    }
  }

  lemma CardinalityShrinks<T>(a: set<T>, b: set<T>)
    requires a < b
    ensures |a| < |b|
  {
    assert b == a + (b - a);
    assert |b| == |a| + |b - a|;
  }
}

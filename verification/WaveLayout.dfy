/** Waves as lists of task IDs, and moving one task between them. */
module WaveLayout {
  import opened Strings
  import opened Graphs

  datatype Wave = Wave(waveId: string, tasks: seq<Id>)

  function WaveName(k: nat): string {
    "wave-" + Itoa(k)
  }

  /** `ids` are known and follow the input order; so none is repeated. */
  ghost predicate InOrder(ids: seq<Id>, order: map<Id, nat>) {
    && (forall i | 0 <= i < |ids| :: ids[i] in order)
    && (forall i, j | 0 <= i < j < |ids| :: order[ids[i]] < order[ids[j]])
  }

  ghost predicate Injective(order: map<Id, nat>) {
    forall a, b | a in order && b in order && a != b :: order[a] != order[b]
  }

  /** The waves hold each ID of `w` exactly once, in wave `w[id]`, and nothing else. */
  ghost predicate Placed(waves: seq<Wave>, w: map<Id, nat>, order: map<Id, nat>) {
    && (forall k | 0 <= k < |waves| :: InOrder(waves[k].tasks, order))
    && (forall k, id {:trigger id in waves[k].tasks} | 0 <= k < |waves| && id in waves[k].tasks ::
          id in w && w[id] == k)
    && (forall id | id in w :: w[id] < |waves| && id in waves[w[id]].tasks)
  }

  lemma PlacedBound(waves: seq<Wave>, w: map<Id, nat>, order: map<Id, nat>)
    requires Placed(waves, w, order)
    ensures forall id | id in w :: w[id] < |waves|
  {
  }

  lemma InOrderTail(a: seq<Id>, order: map<Id, nat>)
    requires InOrder(a, order) && a != []
    ensures InOrder(a[1..], order)
    ensures forall id :: id in a[1..] <==> id in a && id != a[0]
    ensures forall id | id in a[1..] :: order[a[0]] < order[id]
  {
    assert a == [a[0]] + a[1..];
    forall i | 0 <= i < |a[1..]| ensures a[1..][i] in order && order[a[0]] < order[a[1..][i]] {
      assert a[1..][i] == a[i + 1];
    }
  }

  lemma {:induction false} InOrderUnique(a: seq<Id>, b: seq<Id>, order: map<Id, nat>)
    requires InOrder(a, order) && InOrder(b, order) && Injective(order)
    requires forall id :: id in a <==> id in b
    ensures a == b
  {
    assert a != [] ==> a[0] in b;
    assert b != [] ==> b[0] in a;
    if a != [] {
      InOrderTail(a, order);
      InOrderTail(b, order);
      hide InOrder, Injective;
      assert a[0] == b[0];
      InOrderUnique(a[1..], b[1..], order);
      assert a == [a[0]] + a[1..] && b == [b[0]] + b[1..];
    }
  }

  /** The wave of every task determines every list: nothing about the waves is left open. */
  lemma PlacedUnique(a: seq<Wave>, b: seq<Wave>, w: map<Id, nat>, order: map<Id, nat>, k: nat)
    requires Placed(a, w, order) && Placed(b, w, order) && Injective(order)
    requires k < |a| && k < |b|
    ensures a[k].tasks == b[k].tasks
  {
    forall id ensures id in a[k].tasks <==> id in b[k].tasks {
      if id in a[k].tasks { assert w[id] == k; }
      if id in b[k].tasks { assert w[id] == k; }
    }
    InOrderUnique(a[k].tasks, b[k].tasks, order);
  }

  /** `findWaveIndex`. */
  method FindWave(waves: seq<Wave>, id: Id) returns (r: int)
    ensures -1 <= r < |waves|
    ensures r >= 0 ==> id in waves[r].tasks
    ensures forall k | 0 <= k < |waves| && (r < 0 || k < r) :: id !in waves[k].tasks
  {
    for i := 0 to |waves|
      invariant forall k | 0 <= k < i :: id !in waves[k].tasks
    {
      for j := 0 to |waves[i].tasks|
        invariant forall k | 0 <= k < j :: waves[i].tasks[k] != id
      {
        if waves[i].tasks[j] == id {
          return i;
        }
      }
    }
    r := -1;
  }

  lemma {:induction false} WithoutInOrder(ids: seq<Id>, id: Id, order: map<Id, nat>)
    requires InOrder(ids, order)
    ensures InOrder(Without(ids, id), order)
  {
    if ids != [] {
      var front, last := ids[..|ids| - 1], ids[|ids| - 1];
      WithoutInOrder(front, id, order);
      WithoutMembers(front, id);
      var kept := Without(front, id);
      forall i | 0 <= i < |kept| ensures order[kept[i]] < order[last] {
        assert kept[i] in front;
      }
    }
  }

  /** `removeTaskID`. */
  method RemoveTaskId(ids: seq<Id>, id: Id) returns (filtered: seq<Id>)
    ensures filtered == Without(ids, id)
  {
    filtered := [];
    for i := 0 to |ids|
      invariant filtered == Without(ids[..i], id)
    {
      assert ids[..i + 1][..i] == ids[..i];
      if ids[i] != id {
        filtered := filtered + [ids[i]];
      }
    }
    assert ids[..|ids|] == ids;
  }

  /** `insertTaskID` puts the ID before the first one that follows it in the input. */
  method InsertTaskId(ids: seq<Id>, id: Id, order: map<Id, nat>) returns (r: seq<Id>)
    requires InOrder(ids, order) && Injective(order)
    requires id in order && id !in ids
    ensures InOrder(r, order)
    ensures forall x :: x in r <==> x in ids || x == id
  {
    var insertAt := |ids|;
    for i := 0 to |ids|
      invariant insertAt == |ids|
      invariant forall j | 0 <= j < i :: order[ids[j]] < order[id]
    {
      assert ids[i] != id;
      if order[id] < order[ids[i]] {
        insertAt := i;
        break;
      }
    }
    r := ids[..insertAt] + [id] + ids[insertAt..];
    forall j | insertAt <= j < |ids| ensures order[id] < order[ids[j]] {
      assert j == insertAt || order[ids[insertAt]] < order[ids[j]];
    }
    InsertedInOrder(ids, id, insertAt, order);
    assert ids == ids[..insertAt] + ids[insertAt..];
  }

  lemma InsertedInOrder(ids: seq<Id>, id: Id, at: nat, order: map<Id, nat>)
    requires InOrder(ids, order) && id in order && at <= |ids|
    requires forall j | 0 <= j < at :: order[ids[j]] < order[id]
    requires forall j | at <= j < |ids| :: order[id] < order[ids[j]]
    ensures InOrder(ids[..at] + [id] + ids[at..], order)
  {
    var r := ids[..at] + [id] + ids[at..];
    forall i | 0 <= i < |r| ensures r[i] == if i < at then ids[i] else if i == at then id else ids[i - 1] {
    }
  }

  /** Waves that were there keep their names, and wave `k` added at the end is named after its index. */
  ghost predicate NamesExtend(before: seq<Wave>, after: seq<Wave>) {
    && |before| <= |after|
    && (forall k | 0 <= k < |before| :: after[k].waveId == before[k].waveId)
    && (forall k | |before| <= k < |after| :: after[k].waveId == WaveName(k))
  }

  /** `ensureWave`. */
  method EnsureWave(waves: seq<Wave>, waveIndex: nat) returns (r: seq<Wave>)
    ensures |r| == if |waves| <= waveIndex then waveIndex + 1 else |waves|
    ensures waves <= r && NamesExtend(waves, r)
    ensures forall k | |waves| <= k < |r| :: r[k].tasks == []
  {
    r := waves;
    while |r| <= waveIndex
      invariant waves <= r && NamesExtend(waves, r)
      invariant |r| <= waveIndex || |r| == if |waves| <= waveIndex then waveIndex + 1 else |waves|
      invariant forall k | |waves| <= k < |r| :: r[k].tasks == []
    {
      r := r + [Wave(WaveName(|r|), [])];
    }
  }

  /** `moveTaskToWave` moves a task forward, never back, and touches no other task. */
  method MoveTaskToWave(waves: seq<Wave>, id: Id, target: nat, order: map<Id, nat>, ghost w: map<Id, nat>)
    returns (r: seq<Wave>)
    requires Placed(waves, w, order) && Injective(order)
    ensures id !in w || w[id] >= target ==> r == waves
    ensures id in w && w[id] < target ==>
              Placed(r, w[id := target], order) && |r| == if |waves| <= target then target + 1 else |waves|
    ensures NamesExtend(waves, r)
  {
    var current := FindWave(waves, id);
    FoundIsPlaced(waves, id, w, order, current);
    hide Placed, InOrder, Injective, NamesExtend, Without;
    if current == -1 || current >= target {
      return waves;
    }
    var removed := RemoveTaskId(waves[current].tasks, id);
    r := waves[current := waves[current].(tasks := removed)];
    r := EnsureWave(r, target);
    ghost var mid := r;
    TakenOut(waves, current, mid, id, w, order);
    TargetInOrder(mid, w - {id}, order, id, target);
    var inserted := InsertTaskId(r[target].tasks, id, order);
    PutIn(mid, w - {id}, order, id, target, inserted);
    NamesStay(waves, current, removed, mid, target, inserted);
    assert (w - {id})[id := target] == w[id := target];
    r := r[target := r[target].(tasks := inserted)];
  }

  /** Without the moved ID the layout places all other IDs. */
  lemma {:induction false} TakenOut(waves: seq<Wave>, current: nat, mid: seq<Wave>, id: Id, w: map<Id, nat>,
                                    order: map<Id, nat>)
    requires Placed(waves, w, order) && id in w && w[id] == current < |waves|
    requires waves[current := waves[current].(tasks := Without(waves[current].tasks, id))] <= mid
    requires forall k | |waves| <= k < |mid| :: mid[k].tasks == []
    ensures Placed(mid, w - {id}, order)
  {
    EmptyInOrder(order);
    WithoutMembers(waves[current].tasks, id);
    WithoutInOrder(waves[current].tasks, id, order);
    hide InOrder, Without;
    forall k | 0 <= k < |mid| ensures InOrder(mid[k].tasks, order) {
      if k < |waves| && k != current { assert mid[k] == waves[k]; }
    }
  }

  lemma FoundIsPlaced(waves: seq<Wave>, id: Id, w: map<Id, nat>, order: map<Id, nat>, r: int)
    requires Placed(waves, w, order) && -1 <= r < |waves| && (r >= 0 ==> id in waves[r].tasks)
    requires r < 0 ==> forall k | 0 <= k < |waves| :: id !in waves[k].tasks
    ensures r < 0 <==> id !in w
    ensures id in w ==> w[id] == r && id in order
    ensures NamesExtend(waves, waves)
  {
    if r >= 0 {
      var i :| 0 <= i < |waves[r].tasks| && waves[r].tasks[i] == id;
    }
  }

  lemma TargetInOrder(mid: seq<Wave>, w: map<Id, nat>, order: map<Id, nat>, id: Id, target: nat)
    requires Placed(mid, w, order) && id !in w && target < |mid|
    ensures InOrder(mid[target].tasks, order) && id !in mid[target].tasks
  {
    hide InOrder;
  }

  lemma NamesStay(waves: seq<Wave>, current: nat, removed: seq<Id>, mid: seq<Wave>, target: nat, inserted: seq<Id>)
    requires current < |waves| && target < |mid|
    requires NamesExtend(waves[current := waves[current].(tasks := removed)], mid)
    ensures NamesExtend(waves, mid[target := mid[target].(tasks := inserted)])
  {
  }

  lemma EmptyInOrder(order: map<Id, nat>)
    ensures InOrder([], order)
  {
  }

  lemma PutIn(mid: seq<Wave>, w: map<Id, nat>, order: map<Id, nat>, id: Id, target: nat, inserted: seq<Id>)
    requires Placed(mid, w, order) && id !in w && target < |mid|
    requires InOrder(inserted, order) && forall x :: x in inserted <==> x in mid[target].tasks || x == id
    ensures Placed(mid[target := mid[target].(tasks := inserted)], w[id := target], order)
  {
    hide InOrder;
  }
}

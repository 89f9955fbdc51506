/** Taking file locks in sorted order, and why any number of operations that do so never wait in a circle. */
module Locks {
  import opened Sorting
  import opened Strings

  // ----- uniqueSortedPaths -----

  ghost predicate Increasing(s: seq<string>) {
    forall i, j | 0 <= i < j < |s| :: Less(s[i], s[j])
  }

  ghost predicate SameMembers(a: seq<string>, b: seq<string>) {
    forall x :: x in a <==> x in b
  }

  /** `order` lists exactly the paths of `paths`, each once, in increasing order. */
  ghost predicate IsLockOrder(order: seq<string>, paths: seq<string>) {
    Increasing(order) && SameMembers(order, paths)
  }

  lemma IncreasingSorted(s: seq<string>)
    requires Increasing(s)
    ensures SortedBy(Less, s)
    ensures forall i, j | 0 <= i < j < |s| :: s[i] != s[j]
  {
    hide Less;
    forall i, j | 0 <= i < j < |s| ensures !Less(s[j], s[i]) && s[i] != s[j] {
      LessIrreflexive(s[i]);
      if Less(s[j], s[i]) { LessTransitive(s[i], s[j], s[i]); }
    }
  }

  lemma {:induction false} OnceEach(s: seq<string>, x: string)
    requires forall i, j | 0 <= i < j < |s| :: s[i] != s[j]
    ensures multiset(s)[x] == if x in s then 1 else 0
  {
    if s != [] {
      var front := s[..|s| - 1];
      assert s == front + [s[|s| - 1]];
      OnceEach(front, x);
      assert s[|s| - 1] !in front;
    }
  }

  /** There is one lock order for a set of paths, whatever list they came in. */
  lemma LockOrderUnique(a: seq<string>, b: seq<string>, paths: seq<string>, again: seq<string>)
    requires IsLockOrder(a, paths) && IsLockOrder(b, again)
    requires SameMembers(paths, again)
    ensures a == b
  {
    hide Less;
    IncreasingSorted(a);
    IncreasingSorted(b);
    assert multiset(a) == multiset(b) by {
      forall x ensures multiset(a)[x] == multiset(b)[x] {
        assert x in a <==> x in b;
        OnceEach(a, x);
        OnceEach(b, x);
      }
    }
    LessIsStrictTotal(multiset(a));
    SortedUnique(Less, a, b);
  }

  lemma SortedMembers(paths: seq<string>)
    ensures SameMembers(Sorted(paths), paths)
  {
    assert multiset(Sorted(paths)) == multiset(paths);
    forall x ensures x in Sorted(paths) <==> x in paths {
      assert x in multiset(Sorted(paths)) <==> x in multiset(paths);
    }
  }

  /** What the filter has after `i` of the sorted paths. */
  ghost predicate Filtered(kept: seq<string>, sorted: seq<string>, i: nat)
    requires i <= |sorted|
  {
    Increasing(kept) && SameMembers(kept, sorted[..i])
  }

  /** Appending the next path of a sorted list keeps the kept ones increasing. */
  lemma KeepOne(kept: seq<string>, sorted: seq<string>, i: nat)
    requires i < |sorted| && SortedBy(Less, sorted) && Filtered(kept, sorted, i)
    requires kept != [] ==> kept[|kept| - 1] != sorted[i]
    ensures Filtered(kept + [sorted[i]], sorted, i + 1)
  {
    hide Less;
    var longer := kept + [sorted[i]];
    assert sorted[..i + 1] == sorted[..i] + [sorted[i]];
    forall a, b | 0 <= a < b < |longer| ensures Less(longer[a], longer[b]) {
      if b == |kept| {
        LastIsBefore(kept, sorted, i);
        if a < |kept| - 1 { LessTransitive(kept[a], kept[|kept| - 1], sorted[i]); }
      }
    }
  }

  lemma LastIsBefore(kept: seq<string>, sorted: seq<string>, i: nat)
    requires i < |sorted| && SortedBy(Less, sorted) && SameMembers(kept, sorted[..i])
    requires kept != [] && kept[|kept| - 1] != sorted[i]
    ensures Less(kept[|kept| - 1], sorted[i])
  {
    hide Less;
    assert kept[|kept| - 1] in sorted[..i];
    var j :| 0 <= j < i && sorted[j] == kept[|kept| - 1];
    assert !Less(sorted[i], sorted[j]);
    LessTotal(sorted[i], sorted[j]);
  }

  lemma SkipOne(kept: seq<string>, sorted: seq<string>, i: nat)
    requires i < |sorted| && Filtered(kept, sorted, i)
    requires kept != [] && kept[|kept| - 1] == sorted[i]
    ensures Filtered(kept, sorted, i + 1)
  {
    hide Less, Increasing;
    assert sorted[..i + 1] == sorted[..i] + [sorted[i]];
    assert kept[|kept| - 1] in kept;
  }

  lemma FilteredNone(sorted: seq<string>)
    ensures Filtered([], sorted, 0)
  {
  }

  /** Filters a sorted copy in place; the kept paths are a prefix of the same array. */
  method UniqueSortedPaths(paths: seq<string>) returns (unique: seq<string>)
    ensures IsLockOrder(unique, paths)
  {
    hide Filtered, SortedBy, Less, Sorted, IsLockOrder;
    var list := Sorted(paths);
    var sorted := new string[|list|](i requires 0 <= i < |list| => list[i]);
    SortedInOrder(paths);
    FilteredNone(list);
    var kept := 0;
    assert sorted[..0] == [];
    for i := 0 to sorted.Length
      invariant 0 <= kept <= i
      invariant forall k | i <= k < |list| :: sorted[k] == list[k]
      invariant Filtered(sorted[..kept], list, i)
    {
      var path := sorted[i];
      ghost var was := sorted[..kept];
      if kept == 0 || sorted[kept - 1] != path {
        KeepOne(was, list, i);
        sorted[kept] := path;
        kept := kept + 1;
        assert sorted[..kept] == was + [path];
      } else {
        SkipOne(was, list, i);
      }
    }
    unique := sorted[..kept];
    FilteredAll(unique, paths);
  }

  lemma FilteredAll(kept: seq<string>, paths: seq<string>)
    requires Filtered(kept, Sorted(paths), |Sorted(paths)|)
    ensures IsLockOrder(kept, paths)
  {
    hide Increasing;
    var list := Sorted(paths);
    SortedMembers(paths);
    assert list[..|list|] == list;
  }

  // ----- concurrent holders -----

  /** One call of `withLocks`: taking its locks in order, running its body once it has them all, giving the first `n`
      of them back, last one first, or gone with the first `n` still taken. */
  datatype Process =
    | Idle
    | Locking(want: seq<string>, n: nat)
    | Unlocking(want: seq<string>, n: nat)
    | Leaked(want: seq<string>, n: nat)

  /** `owner` is the operating system's lock table. */
  datatype System = System(procs: seq<Process>, owner: map<string, nat>)

  /** `Lock` and `Unlock` move one lock; `Fail` is a lock error other than the lock being held; `Abandon` is a lock
      directory that cannot be created, on which the call returns without giving anything back; `Finish` ends the body;
      `Return` leaves the call. */
  datatype Move =
    | Begin(p: nat, paths: seq<string>, order: seq<string>)
    | Lock(p: nat)
    | Fail(p: nat)
    | Abandon(p: nat)
    | Finish(p: nat)
    | Unlock(p: nat)
    | Return(p: nat)

  ghost predicate Enabled(s: System, m: Move) {
    m.p < |s.procs| &&
    var c := s.procs[m.p];
    match m
    case Begin(_, paths, order) => c.Idle? && IsLockOrder(order, paths)
    case Lock(_) => c.Locking? && c.n < |c.want| && c.want[c.n] !in s.owner
    case Fail(_) => c.Locking? && c.n < |c.want|
    case Abandon(_) => c.Locking? && c.n < |c.want|
    case Finish(_) => c.Locking? && c.n == |c.want|
    case Unlock(_) => c.Unlocking? && 0 < c.n <= |c.want|
    case Return(_) => c.Unlocking? && c.n == 0
  }

  ghost function Next(s: System, m: Move): System
    requires Enabled(s, m)
  {
    var c := s.procs[m.p];
    match m
    case Begin(p, _, order) => s.(procs := s.procs[p := Locking(order, 0)])
    case Lock(p) => System(s.procs[p := Locking(c.want, c.n + 1)], s.owner[c.want[c.n] := p])
    case Fail(p) => s.(procs := s.procs[p := Unlocking(c.want, c.n)])
    case Abandon(p) => s.(procs := s.procs[p := if c.n == 0 then Idle else Leaked(c.want, c.n)])
    case Finish(p) => s.(procs := s.procs[p := Unlocking(c.want, c.n)])
    case Unlock(p) => System(s.procs[p := Unlocking(c.want, c.n - 1)], s.owner - {c.want[c.n - 1]})
    case Return(p) => s.(procs := s.procs[p := Idle])
  }

  ghost predicate IsRun(s: System, run: seq<Move>)
    decreases |run|
  {
    run == [] || (Enabled(s, run[0]) && IsRun(Next(s, run[0]), run[1..]))
  }

  ghost function After(s: System, run: seq<Move>): System
    requires IsRun(s, run)
    decreases |run|
  {
    if run == [] then s else After(Next(s, run[0]), run[1..])
  }

  /** The locks a call has. */
  ghost function Held(c: Process): seq<string> {
    if c.Idle? || c.n > |c.want| then [] else c.want[..c.n]
  }

  ghost predicate Has(s: System, p: nat, x: string) {
    p < |s.procs| && x in Held(s.procs[p])
  }

  ghost predicate InOrder(c: Process) {
    c.Idle? || (Increasing(c.want) && c.n <= |c.want|)
  }

  /** Every call takes its locks in increasing order, and the lock table says exactly who has what. */
  ghost predicate Consistent(s: System) {
    && (forall p | 0 <= p < |s.procs| :: InOrder(s.procs[p]))
    && (forall p: nat, x :: Has(s, p, x) <==> x in s.owner && s.owner[x] == p)
  }

  ghost predicate Fresh(s: System) {
    s.owner == map[] && forall p | 0 <= p < |s.procs| :: s.procs[p] == Idle
  }

  lemma PrefixGrows(want: seq<string>, n: nat)
    requires n < |want|
    ensures want[..n + 1] == want[..n] + [want[n]]
  {
  }

  /** An increasing list has no path twice. */
  lemma NotBefore(want: seq<string>, n: nat)
    requires Increasing(want) && n < |want|
    ensures want[n] !in want[..n]
  {
    hide Less;
    LessIrreflexive(want[n]);
  }

  /** What a move does to the locks of the call that makes it. */
  lemma MoveChangesHeld(s: System, m: Move)
    requires Consistent(s) && Enabled(s, m)
    ensures |Next(s, m).procs| == |s.procs| && InOrder(Next(s, m).procs[m.p])
    ensures var was, now, c := Held(s.procs[m.p]), Held(Next(s, m).procs[m.p]), s.procs[m.p];
            if m.Lock? then now == was + [c.want[c.n]]
            else if m.Unlock? then was == now + [c.want[c.n - 1]] && c.want[c.n - 1] !in now
            else now == was
  {
    var c := s.procs[m.p];
    if m.Lock? {
      PrefixGrows(c.want, c.n);
    } else if m.Unlock? {
      PrefixGrows(c.want, c.n - 1);
      NotBefore(c.want, c.n - 1);
    }
  }

  lemma MoveKeepsConsistent(s: System, m: Move)
    requires Consistent(s) && Enabled(s, m)
    ensures Consistent(Next(s, m))
  {
    var t := Next(s, m);
    MoveChangesHeld(s, m);
    assert forall p: nat | p < |s.procs| && p != m.p :: t.procs[p] == s.procs[p];
    hide Held, Increasing, IsLockOrder;
    forall p: nat, x ensures Has(t, p, x) <==> x in t.owner && t.owner[x] == p {
      assert Has(s, p, x) <==> x in s.owner && s.owner[x] == p;
      if p != m.p {
        assert Has(t, p, x) <==> Has(s, p, x);
        assert m.Unlock? ==> Has(s, m.p, s.procs[m.p].want[s.procs[m.p].n - 1]);
      }
    }
  }

  lemma {:induction false} RunKeepsConsistent(s: System, run: seq<Move>)
    requires Consistent(s) && IsRun(s, run)
    ensures Consistent(After(s, run))
    decreases |run|
  {
    if run != [] {
      MoveKeepsConsistent(s, run[0]);
      RunKeepsConsistent(Next(s, run[0]), run[1..]);
    }
  }

  /** In every reachable state, no two calls have the lock of the same path. */
  lemma BodiesExclude(s: System, run: seq<Move>, p: nat, q: nat, path: string)
    requires Fresh(s) && IsRun(s, run)
    requires Has(After(s, run), p, path) && Has(After(s, run), q, path)
    ensures p == q
  {
    RunKeepsConsistent(s, run);
  }

  // ----- no deadlock -----

  ghost predicate Waiting(s: System, p: nat) {
    p < |s.procs| && s.procs[p].Locking? && s.procs[p].n < |s.procs[p].want|
  }

  ghost function Awaited(s: System, p: nat): string
    requires Waiting(s, p)
  {
    s.procs[p].want[s.procs[p].n]
  }

  /** Call `p` waits for a lock that call `q` has. */
  ghost predicate WaitsFor(s: System, p: nat, q: nat) {
    Waiting(s, p) && Awaited(s, p) in s.owner && s.owner[Awaited(s, p)] == q
  }

  ghost predicate IsDeadlock(s: System, circle: seq<nat>) {
    circle != [] && forall i | 0 <= i < |circle| ::
      WaitsFor(s, circle[i], circle[if i + 1 < |circle| then i + 1 else 0])
  }

  /** Along a wait the awaited path grows: the holder has the earlier path already. */
  lemma AwaitedGrows(s: System, p: nat, q: nat)
    requires Consistent(s) && WaitsFor(s, p, q) && Waiting(s, q)
    ensures Less(Awaited(s, p), Awaited(s, q))
  {
    assert Has(s, q, Awaited(s, p));
  }

  lemma {:induction false} AwaitedGrowsAlong(s: System, circle: seq<nat>, k: nat)
    requires Consistent(s) && IsDeadlock(s, circle) && 0 < k < |circle|
    ensures Waiting(s, circle[0]) && Waiting(s, circle[k]) && Less(Awaited(s, circle[0]), Awaited(s, circle[k]))
  {
    hide Less;
    assert WaitsFor(s, circle[k - 1], circle[k]);
    assert WaitsFor(s, circle[k], circle[if k + 1 < |circle| then k + 1 else 0]);
    AwaitedGrows(s, circle[k - 1], circle[k]);
    if k > 1 {
      AwaitedGrowsAlong(s, circle, k - 1);
      LessTransitive(Awaited(s, circle[0]), Awaited(s, circle[k - 1]), Awaited(s, circle[k]));
    }
  }

  lemma ConsistentHasNoDeadlock(s: System, circle: seq<nat>)
    requires Consistent(s)
    ensures !IsDeadlock(s, circle)
  {
    hide Less;
    if IsDeadlock(s, circle) {
      var last := |circle| - 1;
      assert WaitsFor(s, circle[last], circle[0]);
      assert WaitsFor(s, circle[0], circle[if last > 0 then 1 else 0]);
      AwaitedGrows(s, circle[last], circle[0]);
      if last > 0 {
        AwaitedGrowsAlong(s, circle, last);
        LessTransitive(Awaited(s, circle[0]), Awaited(s, circle[last]), Awaited(s, circle[0]));
      }
      LessIrreflexive(Awaited(s, circle[0]));
      assert false;
    }
  }

  /** No reachable wait-for graph has a cycle. */
  lemma NeverDeadlocks(s: System, run: seq<Move>, circle: seq<nat>)
    requires Fresh(s) && IsRun(s, run)
    ensures !IsDeadlock(After(s, run), circle)
  {
    RunKeepsConsistent(s, run);
    ConsistentHasNoDeadlock(After(s, run), circle);
  }

  // ----- every call returns -----

  /** A move that needs neither a new call nor an error. */
  predicate IsProgress(m: Move) {
    !m.Begin? && !m.Fail? && !m.Abandon?
  }

  /** No call has left locks behind. */
  ghost predicate NoneLeaked(s: System) {
    forall p | 0 <= p < |s.procs| :: !s.procs[p].Leaked?
  }

  /** Among the first `k` calls, one that waits for a path no other of them is past. */
  lemma {:induction false} GreatestAwaited(s: System, k: nat) returns (p: nat)
    requires k <= |s.procs| && exists q | 0 <= q < k :: Waiting(s, q)
    ensures p < k && Waiting(s, p)
    ensures forall q | 0 <= q < k && Waiting(s, q) :: !Less(Awaited(s, p), Awaited(s, q))
  {
    hide Less;
    if exists q | 0 <= q < k - 1 :: Waiting(s, q) {
      p := GreatestAwaited(s, k - 1);
      if Waiting(s, k - 1) && Less(Awaited(s, p), Awaited(s, k - 1)) {
        forall q | 0 <= q < k && Waiting(s, q) ensures !Less(Awaited(s, k - 1), Awaited(s, q)) {
          LessIrreflexive(Awaited(s, k - 1));
          if Less(Awaited(s, k - 1), Awaited(s, q)) {
            LessTransitive(Awaited(s, p), Awaited(s, k - 1), Awaited(s, q));
          }
        }
        p := k - 1;
      }
    } else {
      p := k - 1;
      LessIrreflexive(Awaited(s, p));
    }
  }

  /** As long as some call is under way, and none has left locks behind, some call can move on. */
  lemma SomeoneProgresses(s: System)
    requires Consistent(s) && NoneLeaked(s) && exists p | 0 <= p < |s.procs| :: !s.procs[p].Idle?
    ensures exists m :: IsProgress(m) && Enabled(s, m)
  {
    hide Less;
    var p :| 0 <= p < |s.procs| && !s.procs[p].Idle?;
    if forall q | 0 <= q < |s.procs| && !s.procs[q].Idle? :: Waiting(s, q) {
      assert Waiting(s, p);
      var last := GreatestAwaited(s, |s.procs|);
      if Awaited(s, last) in s.owner {
        var q := s.owner[Awaited(s, last)];
        assert Has(s, q, Awaited(s, last));
        AwaitedGrows(s, last, q);
        assert false;
      }
      assert Enabled(s, Lock(last));
    } else {
      var q :| 0 <= q < |s.procs| && !s.procs[q].Idle? && !Waiting(s, q);
      var c := s.procs[q];
      assert Enabled(s, if c.Locking? then Finish(q) else if c.n > 0 then Unlock(q) else Return(q));
    }
  }

  /** The most moves a call can still make. */
  function Work(c: Process): nat {
    match c
    case Idle => 0
    case Locking(want, n) => if n <= |want| then 2 * |want| - n + 2 else 0
    case Unlocking(_, n) => n + 1
    case Leaked(_, _) => 0
  }

  function TotalWork(procs: seq<Process>): nat {
    if procs == [] then 0 else TotalWork(procs[..|procs| - 1]) + Work(procs[|procs| - 1])
  }

  lemma {:induction false} WorkOfOne(procs: seq<Process>, p: nat, c: Process)
    requires p < |procs|
    ensures TotalWork(procs[p := c]) == TotalWork(procs) - Work(procs[p]) + Work(c)
  {
    var last := |procs| - 1;
    if p == last {
      assert procs[p := c][..last] == procs[..last];
    } else {
      assert procs[p := c][..last] == procs[..last][p := c];
      WorkOfOne(procs[..last], p, c);
    }
  }

  lemma MoveDoesWork(s: System, m: Move)
    requires Consistent(s) && Enabled(s, m) && !m.Begin?
    ensures TotalWork(Next(s, m).procs) < TotalWork(s.procs)
  {
    var c := Next(s, m).procs[m.p];
    assert Next(s, m).procs == s.procs[m.p := c];
    WorkOfOne(s.procs, m.p, c);
    hide TotalWork;
  }

  lemma {:induction false} RunDoesWork(s: System, run: seq<Move>)
    requires Consistent(s) && IsRun(s, run) && forall m | m in run :: !m.Begin?
    ensures TotalWork(After(s, run).procs) + |run| <= TotalWork(s.procs)
    decreases |run|
  {
    if run != [] {
      assert run[0] in run;
      MoveKeepsConsistent(s, run[0]);
      MoveDoesWork(s, run[0]);
      RunDoesWork(Next(s, run[0]), run[1..]);
    }
  }

  ghost predicate Quiet(s: System) {
    forall m | IsProgress(m) :: !Enabled(s, m)
  }

  lemma QuietIsFresh(s: System)
    requires Consistent(s) && Quiet(s) && NoneLeaked(s)
    ensures Fresh(s)
  {
    hide Enabled, IsProgress;
    if exists p | 0 <= p < |s.procs| :: !s.procs[p].Idle? {
      SomeoneProgresses(s);
      assert false;
    }
    forall x ensures x !in s.owner {
      var p := if x in s.owner then s.owner[x] else 0;
      assert !Has(s, p, x);
    }
  }

  /** No move of the run is an `Abandon` of a call that has taken locks. */
  ghost predicate LeavesNothing(s: System, run: seq<Move>)
    requires IsRun(s, run)
    decreases |run|
  {
    run == [] || (!(run[0].Abandon? && s.procs[run[0].p].n > 0) && LeavesNothing(Next(s, run[0]), run[1..]))
  }

  lemma {:induction false} LeakedStays(s: System, run: seq<Move>, p: nat)
    requires IsRun(s, run) && p < |s.procs| && s.procs[p].Leaked?
    ensures !NoneLeaked(After(s, run))
    decreases |run|
  {
    if run != [] { LeakedStays(Next(s, run[0]), run[1..], p); }
  }

  /** Locks are left behind exactly by such moves. */
  lemma {:induction false} NoneLeakedIff(s: System, run: seq<Move>)
    requires IsRun(s, run) && NoneLeaked(s)
    ensures NoneLeaked(After(s, run)) <==> LeavesNothing(s, run)
    decreases |run|
  {
    if run != [] {
      var t := Next(s, run[0]);
      if run[0].Abandon? && s.procs[run[0].p].n > 0 {
        LeakedStays(t, run[1..], run[0].p);
      } else {
        NoneLeakedIff(t, run[1..]);
      }
    }
  }

  /** From every reachable state, with no new calls, only boundedly many moves remain; and when no call can move on,
      every call has returned and every lock is free exactly when no call was abandoned with locks taken. */
  lemma EveryCallReturns(s: System, before: seq<Move>, run: seq<Move>)
    requires Fresh(s) && IsRun(s, before) && IsRun(After(s, before), run) && forall m | m in run :: !m.Begin?
    ensures |run| <= TotalWork(After(s, before).procs)
    ensures Quiet(After(After(s, before), run)) ==>
              (Fresh(After(After(s, before), run)) <==>
                LeavesNothing(s, before) && LeavesNothing(After(s, before), run))
  {
    hide TotalWork, IsRun, After, Quiet, Consistent, LeavesNothing;
    assert Consistent(s) by { FreshIsConsistent(s); }
    RunKeepsConsistent(s, before);
    RunKeepsConsistent(After(s, before), run);
    RunDoesWork(After(s, before), run);
    if Quiet(After(After(s, before), run)) && NoneLeaked(After(After(s, before), run)) {
      QuietIsFresh(After(After(s, before), run));
    }
    LeaksAddUp(s, before, run);
  }

  lemma LeaksAddUp(s: System, before: seq<Move>, run: seq<Move>)
    requires Fresh(s) && IsRun(s, before) && IsRun(After(s, before), run)
    ensures NoneLeaked(After(After(s, before), run)) <==>
              LeavesNothing(s, before) && LeavesNothing(After(s, before), run)
  {
    hide IsRun, After, LeavesNothing;
    NoneLeakedIff(s, before);
    if NoneLeaked(After(s, before)) {
      NoneLeakedIff(After(s, before), run);
    } else {
      var p :| 0 <= p < |After(s, before).procs| && After(s, before).procs[p].Leaked?;
      LeakedStays(After(s, before), run, p);
    }
  }

  lemma FreshIsConsistent(s: System)
    requires Fresh(s)
    ensures Consistent(s)
  {
  }

  /** The first of two calls takes `a` and then cannot create the directory of `b`. */
  const LEAK: seq<Move> := [Begin(0, ["a", "b"], ["a", "b"]), Lock(0), Abandon(0), Begin(1, ["a"], ["a"])]

  /** A call abandoned with a lock taken can leave another one waiting with nothing left to move: as long as the process
      that left the lock lives, for the operating system frees it only then. */
  lemma LeakBlocks()
    ensures var s := System([Idle, Idle], map[]);
            IsRun(s, LEAK) && Quiet(After(s, LEAK)) && After(s, LEAK).procs[1] == Locking(["a"], 0)
  {
    var s := System([Idle, Idle], map[]);
    var s1 := System([Locking(["a", "b"], 0), Idle], map[]);
    var s2 := System([Locking(["a", "b"], 1), Idle], map["a" := 0]);
    var s3 := System([Leaked(["a", "b"], 1), Idle], map["a" := 0]);
    var s4 := System([Leaked(["a", "b"], 1), Locking(["a"], 0)], map["a" := 0]);
    assert Less("a", "b");
    assert IsLockOrder(["a", "b"], ["a", "b"]) && IsLockOrder(["a"], ["a"]);
    assert Enabled(s, LEAK[0]) && Next(s, LEAK[0]) == s1;
    assert Enabled(s1, LEAK[1]) && Next(s1, LEAK[1]) == s2;
    assert Enabled(s2, LEAK[2]) && Next(s2, LEAK[2]) == s3;
    assert Enabled(s3, LEAK[3]) && Next(s3, LEAK[3]) == s4;
    assert Quiet(s4);
    hide Enabled, Next, Quiet, IsLockOrder;
    RunOfFour(s, s1, s2, s3, s4, LEAK);
  }

  lemma RunOfFour(s: System, s1: System, s2: System, s3: System, s4: System, run: seq<Move>)
    requires |run| == 4 && Enabled(s, run[0]) && Next(s, run[0]) == s1 && Enabled(s1, run[1]) && Next(s1, run[1]) == s2
    requires Enabled(s2, run[2]) && Next(s2, run[2]) == s3 && Enabled(s3, run[3]) && Next(s3, run[3]) == s4
    ensures IsRun(s, run) && After(s, run) == s4
  {
    hide Enabled, Next;
    var r1, r2, r3 := run[1..], run[2..], run[3..];
    assert r1[1..] == r2 && r2[1..] == r3 && r3[1..] == [];
    assert IsRun(s4, []) && After(s4, []) == s4;
    assert IsRun(s3, r3) && After(s3, r3) == s4;
    assert IsRun(s2, r2) && After(s2, r2) == s4;
    assert IsRun(s1, r1) && After(s1, r1) == s4;
  }
}

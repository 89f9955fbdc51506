/** The ticket store's lists of ready and blocked tasks, and how they differ from what the engine dispatches. */
module Readiness {
  import opened Sorting
  import opened Strings
  import opened Graphs
  import opened Tickets
  import opened Claims
  import RunMachine

  /** A task as the lists see it. */
  datatype Listed = Listed(task: TicketTask, priority: int)

  /** The status a lookup finds: that of the last task of the ID, or nothing. */
  function StatusOf(tasks: seq<Listed>, id: Id): Option<Status> {
    if tasks == [] then None
    else if tasks[|tasks| - 1].task.id == id then Some(tasks[|tasks| - 1].task.status)
    else StatusOf(tasks[..|tasks| - 1], id)
  }

  /** The dependency is known and its ticket is closed: done or failed. */
  predicate DepClosed(tasks: seq<Listed>, dep: Id) {
    var s := StatusOf(tasks, dep);
    s.Some? && StatusToTicket(s.value) == Closed
  }

  ghost predicate AllClosed(tasks: seq<Listed>, deps: seq<Id>) {
    forall d | d in deps :: DepClosed(tasks, d)
  }

  ghost predicate IsReady(tasks: seq<Listed>, t: Listed) {
    IsDispatchable(t.task.status) && AllClosed(tasks, t.task.deps)
  }

  ghost predicate IsBlocked(tasks: seq<Listed>, t: Listed) {
    var tk := StatusToTicket(t.task.status);
    (tk == Open || tk == InProgress) && t.task.deps != [] && !AllClosed(tasks, t.task.deps)
  }

  predicate PriorityThenId(a: Listed, b: Listed) {
    if a.priority != b.priority then a.priority < b.priority else Less(a.task.id, b.task.id)
  }

  /** The tasks of `from` that satisfy `keep`, in order. */
  ghost function Chosen(from: seq<Listed>, keep: Listed -> bool): seq<Listed> {
    if from == [] then []
    else
      var front := Chosen(from[..|from| - 1], keep);
      if keep(from[|from| - 1]) then front + [from[|from| - 1]] else front
  }

  lemma {:induction false} ChosenMembers(from: seq<Listed>, keep: Listed -> bool)
    ensures forall t :: t in Chosen(from, keep) <==> t in from && keep(t)
  {
    if from != [] {
      assert from == from[..|from| - 1] + [from[|from| - 1]];
      ChosenMembers(from[..|from| - 1], keep);
    }
  }

  ghost predicate IsStatusMap(tasks: seq<Listed>, statusMap: map<Id, TkStatus>) {
    forall id :: match StatusOf(tasks, id)
                 case None => id !in statusMap
                 case Some(s) => id in statusMap && statusMap[id] == StatusToTicket(s)
  }

  method BuildStatusMap(tasks: seq<Listed>) returns (statusMap: map<Id, TkStatus>)
    ensures IsStatusMap(tasks, statusMap)
  {
    statusMap := map[];
    for i := 0 to |tasks|
      invariant IsStatusMap(tasks[..i], statusMap)
    {
      assert tasks[..i + 1][..i] == tasks[..i];
      statusMap := statusMap[tasks[i].task.id := StatusToTicket(tasks[i].task.status)];
    }
    assert tasks[..|tasks|] == tasks;
  }

  method AllDepsClosed(deps: seq<Id>, statusMap: map<Id, TkStatus>, ghost tasks: seq<Listed>) returns (r: bool)
    requires IsStatusMap(tasks, statusMap)
    ensures r == AllClosed(tasks, deps)
  {
    for k := 0 to |deps|
      invariant forall j | 0 <= j < k :: DepClosed(tasks, deps[j])
    {
      assert deps[k] in deps;
      if deps[k] !in statusMap || statusMap[deps[k]] != Closed {
        return false;
      }
    }
    return true;
  }

  lemma ByPriorityIsTotal(s: multiset<Listed>)
    requires forall x, y | x in s && y in s && x.task.id == y.task.id :: x == y
    ensures StrictTotalOn(PriorityThenId, s)
  {
    forall x | x in s ensures !PriorityThenId(x, x) { LessIrreflexive(x.task.id); }
    forall x, y | x in s && y in s && x != y ensures PriorityThenId(x, y) || PriorityThenId(y, x) {
      LessTotal(x.task.id, y.task.id);
    }
    forall x, y, z | x in s && y in s && z in s && PriorityThenId(x, y) && PriorityThenId(y, z)
      ensures PriorityThenId(x, z)
    {
      if x.priority == y.priority == z.priority { LessTransitive(x.task.id, y.task.id, z.task.id); }
    }
  }

  /** The dispatchable tasks whose dependencies are all closed, by priority and then by ID. */
  method ReadyFilter(tasks: seq<Listed>) returns (ready: seq<Listed>)
    ensures ready == SortBy(PriorityThenId, Chosen(tasks, (t: Listed) => IsReady(tasks, t)))
  {
    hide AllClosed, IsStatusMap;
    var statusMap := BuildStatusMap(tasks);
    ready := [];
    ghost var keep := (t: Listed) => IsReady(tasks, t);
    for i := 0 to |tasks|
      invariant ready == Chosen(tasks[..i], keep)
    {
      assert tasks[..i + 1][..i] == tasks[..i];
      if !IsDispatchable(tasks[i].task.status) {
        continue;
      }
      var closed := AllDepsClosed(tasks[i].task.deps, statusMap, tasks);
      if closed {
        ready := ready + [tasks[i]];
      }
    }
    assert tasks[..|tasks|] == tasks;
    ready := SortBy(PriorityThenId, ready);
  }

  method BlockedFilter(tasks: seq<Listed>) returns (blocked: seq<Listed>)
    ensures blocked == SortBy(PriorityThenId, Chosen(tasks, (t: Listed) => IsBlocked(tasks, t)))
  {
    hide AllClosed, IsStatusMap;
    var statusMap := BuildStatusMap(tasks);
    blocked := [];
    ghost var keep := (t: Listed) => IsBlocked(tasks, t);
    for i := 0 to |tasks|
      invariant blocked == Chosen(tasks[..i], keep)
    {
      assert tasks[..i + 1][..i] == tasks[..i];
      var tk := StatusToTicket(tasks[i].task.status);
      if tk != Open && tk != InProgress {
        continue;
      }
      if |tasks[i].task.deps| == 0 {
        continue;
      }
      var closed := AllDepsClosed(tasks[i].task.deps, statusMap, tasks);
      if !closed {
        blocked := blocked + [tasks[i]];
      }
    }
    assert tasks[..|tasks|] == tasks;
    blocked := SortBy(PriorityThenId, blocked);
  }

  /** The ready list has exactly the ready tasks, and with distinct IDs it is in order and the same for every order of
      its input. */
  lemma ReadyListIsExact(tasks: seq<Listed>, ready: seq<Listed>)
    requires ready == SortBy(PriorityThenId, Chosen(tasks, (t: Listed) => IsReady(tasks, t)))
    ensures forall t :: t in ready <==> t in tasks && IsReady(tasks, t)
    ensures (forall x, y | x in tasks && y in tasks && x.task.id == y.task.id :: x == y) ==>
              SortedBy(PriorityThenId, ready)
  {
    hide IsReady, PriorityThenId;
    var chosen := Chosen(tasks, (t: Listed) => IsReady(tasks, t));
    ChosenMembers(tasks, (t: Listed) => IsReady(tasks, t));
    forall t ensures t in ready <==> t in chosen {
      assert t in multiset(ready) <==> t in multiset(chosen);
    }
    if forall x, y | x in tasks && y in tasks && x.task.id == y.task.id :: x == y {
      ByPriorityIsTotal(multiset(chosen));
      SortBySorts(PriorityThenId, chosen);
    }
  }

  /** Entry `k` is the last one of its ID. */
  ghost predicate LastOf(tasks: seq<Listed>, id: Id, k: nat) {
    k < |tasks| && tasks[k].task.id == id && forall j | k < j < |tasks| :: tasks[j].task.id != id
  }

  /** The ID is known, and its last entry is done or failed. */
  ghost predicate IsSettled(tasks: seq<Listed>, id: Id) {
    exists k: nat :: LastOf(tasks, id, k) && tasks[k].task.status in [Done, Failed]
  }

  lemma {:induction false} StatusOfLast(tasks: seq<Listed>, id: Id, k: nat)
    requires LastOf(tasks, id, k)
    ensures StatusOf(tasks, id) == Some(tasks[k].task.status)
  {
    if k < |tasks| - 1 {
      var front := tasks[..|tasks| - 1];
      assert LastOf(front, id, k);
      StatusOfLast(front, id, k);
    }
  }

  lemma {:induction false} LastExists(tasks: seq<Listed>, id: Id) returns (k: nat)
    requires StatusOf(tasks, id).Some?
    ensures LastOf(tasks, id, k)
  {
    k := |tasks| - 1;
    if tasks[k].task.id != id { k := LastExists(tasks[..k], id); }
  }

  lemma DepClosedIff(tasks: seq<Listed>, id: Id)
    ensures DepClosed(tasks, id) <==> IsSettled(tasks, id)
  {
    hide StatusOf;
    if DepClosed(tasks, id) {
      var k := LastExists(tasks, id);
      StatusOfLast(tasks, id, k);
    }
    if k: nat :| LastOf(tasks, id, k) && tasks[k].task.status in [Done, Failed] { StatusOfLast(tasks, id, k); }
  }

  /** The ready list without the functions it is made with: the pending and repair-pending tasks whose dependencies are
      all known and done or failed, each as often as it is listed; smaller priorities first, and then by ID. */
  lemma {:induction false} ReadyListIs(tasks: seq<Listed>, ready: seq<Listed>, t: Listed)
    requires ready == SortBy(PriorityThenId, Chosen(tasks, (t: Listed) => IsReady(tasks, t)))
    ensures t in ready <==>
              t in tasks && t.task.status in [Pending, RepairPending]
              && forall d | d in t.task.deps :: IsSettled(tasks, d)
    ensures t in ready ==> multiset(ready)[t] == multiset(tasks)[t]
    ensures (forall x, y | x in tasks && y in tasks && x.task.id == y.task.id :: x == y) ==> InListOrder(ready)
  {
    hide DepClosed, IsSettled, PriorityThenId, SortBy, Chosen, InListOrder, IsReady;
    ReadyListIsExact(tasks, ready);
    ReadyIs(tasks, t);
    var keep := (t: Listed) => IsReady(tasks, t);
    if keep(t) { ChosenCount(tasks, keep, t); }
    assert multiset(ready) == multiset(Chosen(tasks, keep));
    ListOrderIs(ready);
  }

  lemma ReadyIs(tasks: seq<Listed>, t: Listed)
    ensures IsReady(tasks, t) <==>
              t.task.status in [Pending, RepairPending] && forall d | d in t.task.deps :: IsSettled(tasks, d)
  {
    forall d ensures DepClosed(tasks, d) <==> IsSettled(tasks, d) { DepClosedIff(tasks, d); }
    hide DepClosed, IsSettled;
  }

  lemma {:induction false} ChosenCount(from: seq<Listed>, keep: Listed -> bool, t: Listed)
    requires keep(t)
    ensures multiset(Chosen(from, keep))[t] == multiset(from)[t]
  {
    if from != [] {
      assert from == from[..|from| - 1] + [from[|from| - 1]];
      ChosenCount(from[..|from| - 1], keep, t);
    }
  }

  ghost predicate InListOrder(list: seq<Listed>) {
    forall i, j | 0 <= i < j < |list| ::
      list[i].priority < list[j].priority
      || (list[i].priority == list[j].priority && !Less(list[j].task.id, list[i].task.id))
  }

  lemma ListOrderIs(list: seq<Listed>)
    ensures SortedBy(PriorityThenId, list) <==> InListOrder(list)
  {
    hide Less;
  }

  /** The blocked list likewise: the tasks neither done nor failed with a dependency that is unknown, or neither. */
  lemma {:induction false} BlockedListIs(tasks: seq<Listed>, blocked: seq<Listed>, t: Listed)
    requires blocked == SortBy(PriorityThenId, Chosen(tasks, (t: Listed) => IsBlocked(tasks, t)))
    ensures t in blocked <==>
              t in tasks && t.task.status !in [Done, Failed] && exists d :: d in t.task.deps && !IsSettled(tasks, d)
    ensures t in blocked ==> multiset(blocked)[t] == multiset(tasks)[t]
    ensures (forall x, y | x in tasks && y in tasks && x.task.id == y.task.id :: x == y) ==> InListOrder(blocked)
  {
    hide DepClosed, IsSettled, PriorityThenId, SortBy, Chosen, InListOrder, IsBlocked;
    var keep := (t: Listed) => IsBlocked(tasks, t);
    var chosen := Chosen(tasks, keep);
    ChosenMembers(tasks, keep);
    assert multiset(blocked) == multiset(chosen);
    assert t in blocked <==> t in multiset(blocked);
    assert t in chosen <==> t in multiset(chosen);
    BlockedIs(tasks, t);
    if keep(t) { ChosenCount(tasks, keep, t); }
    if forall x, y | x in tasks && y in tasks && x.task.id == y.task.id :: x == y { ChosenSorted(tasks, keep); }
    ListOrderIs(blocked);
  }

  lemma {:induction false} ChosenSorted(tasks: seq<Listed>, keep: Listed -> bool)
    requires forall x, y | x in tasks && y in tasks && x.task.id == y.task.id :: x == y
    ensures SortedBy(PriorityThenId, SortBy(PriorityThenId, Chosen(tasks, keep)))
  {
    hide PriorityThenId, SortBy, Chosen;
    var chosen := Chosen(tasks, keep);
    ChosenMembers(tasks, keep);
    forall x | x in multiset(chosen) ensures x in tasks { assert x in chosen; }
    ByPriorityIsTotal(multiset(chosen));
    SortBySorts(PriorityThenId, chosen);
  }

  lemma BlockedIs(tasks: seq<Listed>, t: Listed)
    ensures IsBlocked(tasks, t) <==>
              t.task.status !in [Done, Failed]
              && exists d :: d in t.task.deps && !IsSettled(tasks, d)
  {
    forall d ensures DepClosed(tasks, d) <==> IsSettled(tasks, d) {
      DepClosedIff(tasks, d);
    }
    hide DepClosed, IsSettled;
  }

  // ----- ready tickets and dispatched tasks -----

  /** What `GetPendingTasks` asks of such a list: every dependency is done. */
  ghost predicate IsPending(tasks: seq<Listed>, t: Listed) {
    IsDispatchable(t.task.status) && forall d | d in t.task.deps :: StatusOf(tasks, d) == Some(Done)
  }

  /** The list has the tickets of the run, each filed under its own ID. */
  ghost predicate ListsRun(tasks: seq<Listed>, files: Files, run: Id) {
    && (forall t | t in tasks :: t.task.id in files && files[t.task.id].fm.parent == run
                                 && t.task == FrontmatterToTask(files[t.task.id].fm))
    && (forall id | id in files && files[id].fm.parent == run :: exists t :: t in tasks && t.task.id == id)
  }

  lemma {:induction false} StatusOfListed(tasks: seq<Listed>, id: Id)
    ensures StatusOf(tasks, id).Some? <==> exists t :: t in tasks && t.task.id == id
    ensures StatusOf(tasks, id).Some? ==> exists t ::
              t in tasks && t.task.id == id && t.task.status == StatusOf(tasks, id).value
  {
    if tasks != [] {
      var front, last := tasks[..|tasks| - 1], tasks[|tasks| - 1];
      assert tasks == front + [last];
      StatusOfListed(front, id);
    }
  }

  /** On the tickets of a run that is what a poll offers. */
  lemma PendingIsOffered(tasks: seq<Listed>, files: Files, run: Id, t: Listed)
    requires ListsRun(tasks, files, run) && t in tasks
    ensures IsPending(tasks, t) <==> RunMachine.Ready(files, run, t.task.id)
  {
    forall d ensures StatusOf(tasks, d) == Some(Done) <==> RunMachine.IsDone(files, d) && files[d].fm.parent == run {
      StatusOfListed(tasks, d);
    }
    hide StatusOf;
  }

  /** The engine dispatches only what the ticket store calls ready; the store also calls a task ready when a
      dependency has failed, and the two agree on a task exactly when it is not ready or none of its dependencies
      failed. */
  lemma ReadyIsPendingIff(tasks: seq<Listed>, t: Listed)
    ensures IsPending(tasks, t) ==> IsReady(tasks, t)
    ensures (IsReady(tasks, t) <==> IsPending(tasks, t)) <==>
              !IsReady(tasks, t) || forall d | d in t.task.deps :: StatusOf(tasks, d) != Some(Failed)
  {
    forall d ensures DepClosed(tasks, d) <==> StatusOf(tasks, d) == Some(Done) || StatusOf(tasks, d) == Some(Failed) {
    }
    hide DepClosed, StatusOf;
  }

  // ----- failed tasks -----

  /** In no disciplined run is a task that waits for a failed one ever offered, in flight or done, although the store
      lists it as ready. */
  lemma {:induction false} FailedDependencyNeverRuns(g: Graph, m: RunMachine.Machine, run: Id,
                                                     actions: seq<RunMachine.Action>,
                                                     x: Id, d: Id)
    requires RunMachine.Sound(g, m) && x in g && d in g[x] && RunMachine.HasFailed(m.files, d)
    requires RunMachine.DisciplinedRun(m, run, actions)
    ensures var n := RunMachine.After(m, run, actions);
            RunMachine.HasFailed(n.files, d) && x !in n.offers && !RunMachine.InFlight(n.files, x)
              && !RunMachine.IsDone(n.files, x)
    decreases |actions|
  {
    if actions == [] {
      FailedIsNotDone(g, m, x, d);
    } else {
      RunMachine.FailedStays(g, m, run, actions[0], d);
      RunMachine.StepKeepsSound(g, m, run, actions[0]);
      hide RunMachine.Sound, RunMachine.Next, RunMachine.Disciplined, RunMachine.HasFailed;
      FailedDependencyNeverRuns(g, RunMachine.Next(m, run, actions[0]), run, actions[1..], x, d);
    }
  }

  lemma FailedIsNotDone(g: Graph, m: RunMachine.Machine, x: Id, d: Id)
    requires RunMachine.Sound(g, m) && x in g && d in g[x] && RunMachine.HasFailed(m.files, d)
    ensures x !in m.offers && !RunMachine.InFlight(m.files, x) && !RunMachine.IsDone(m.files, x)
  {
    hide AllConsistent;
    assert !RunMachine.IsDone(m.files, d);
  }

  /** A task waiting for a failed one is listed as ready and not pending. */
  lemma FailedDependencyIsReady()
    ensures var a := Listed(TicketTask("a", Failed, "", [], "run", "", 0), 1);
            var b := Listed(TicketTask("b", Pending, "", ["a"], "run", "", 0), 2);
            IsReady([a, b], b) && !IsPending([a, b], b)
  {
    var a := Listed(TicketTask("a", Failed, "", [], "run", "", 0), 1);
    var b := Listed(TicketTask("b", Pending, "", ["a"], "run", "", 0), 2);
    assert [a, b][..1] == [a];
    assert "a" in b.task.deps;
    assert StatusOf([a, b], "a") == Some(Failed);
  }
}

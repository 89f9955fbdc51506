/** Which tasks can be in flight together: exactly those that the dependencies do not order, and that do not wait for
    themselves. */
module Together {
  import opened Graphs
  import opened Tasks
  import opened Barriers
  import opened Plans
  import opened Claims
  import opened RunMachine

  // ----- runs in pieces -----

  lemma {:induction false} RunConcat(m: Machine, run: Id, a: seq<Action>, b: seq<Action>)
    requires DisciplinedRun(m, run, a) && DisciplinedRun(After(m, run, a), run, b)
    ensures DisciplinedRun(m, run, a + b) && After(m, run, a + b) == After(After(m, run, a), run, b)
    decreases |a|
  {
    hide Next, Disciplined;
    if a == [] {
      assert a + b == b;
    } else {
      assert (a + b)[1..] == a[1..] + b;
      RunConcat(Next(m, run, a[0]), run, a[1..], b);
    }
  }

  lemma RunOne(m: Machine, run: Id, a: Action)
    requires Disciplined(m, a)
    ensures DisciplinedRun(m, run, [a]) && After(m, run, [a]) == Next(m, run, a)
  {
    hide Next, Disciplined;
    assert [a][1..] == [];
    assert After(Next(m, run, a), run, []) == Next(m, run, a);
  }

  /** One more action at the end of a run. */
  lemma RunThen(m: Machine, run: Id, actions: seq<Action>, a: Action)
    requires DisciplinedRun(m, run, actions) && Disciplined(After(m, run, actions), a)
    ensures DisciplinedRun(m, run, actions + [a])
    ensures After(m, run, actions + [a]) == Next(After(m, run, actions), run, a)
  {
    hide Next, Disciplined, DisciplinedRun, After;
    RunOne(After(m, run, actions), run, a);
    RunConcat(m, run, actions, [a]);
  }

  // ----- single steps -----

  /** `y` is `x` with another status, reason or claim. */
  ghost predicate SameTicket(x: T.File, y: T.File) {
    x.fm.deps == y.fm.deps && x.fm.parent == y.fm.parent && x.fm.id == y.fm.id
  }

  ghost predicate OnlyChanges(m: Machine, n: Machine, id: Id) {
    && id in m.files && n.files.Keys == m.files.Keys && n.offers == m.offers
    && SameTicket(m.files[id], n.files[id])
    && forall x | x in m.files && x != id :: n.files[x] == m.files[x]
  }

  lemma PollOffers(m: Machine, run: Id, id: Id)
    requires Ready(m.files, run, id)
    ensures var n := Next(m, run, Poll); n.files == m.files && id in n.offers && m.offers <= n.offers
  {
  }

  const SOME_TIME: T.Clock := 0x8000_0000_0000_0001

  /** A claim for an hour. */
  function ClaimBy(id: Id, owner: string, now: T.Clock): Action {
    Action.Claim(id, owner, "cli", 3600 * T.SECOND, now)
  }

  lemma ClaimTakes(m: Machine, run: Id, id: Id, owner: string, now: T.Clock)
    requires id in m.offers && id in m.files && owner != ""
    requires m.files[id].fm.claimedBy == "" && T.IsDispatchable(m.files[id].fm.TaskStatus())
    ensures Disciplined(m, ClaimBy(id, owner, now))
    ensures var n := Next(m, run, ClaimBy(id, owner, now)); OnlyChanges(m, n, id) && InFlight(n.files, id)
  {
  }

  lemma VerdictSettles(m: Machine, run: Id, id: Id, pass: bool, reason: string, now: T.Clock)
    requires id in m.files && m.files[id].fm.id == id
    ensures var n := Next(m, run, Verify(id, pass, reason, now));
            OnlyChanges(m, n, id) && n.files[id].fm.claimedBy == ""
            && n.files[id].fm.TaskStatus() == (if pass then T.Done else T.Blocked)
  {
  }

  lemma RetryReopens(m: Machine, run: Id, id: Id, now: T.Clock)
    requires id in m.files && m.files[id].fm.id == id
    ensures var n := Next(m, run, Retry(id, now));
            OnlyChanges(m, n, id) && n.files[id].fm.claimedBy == "" && n.files[id].fm.TaskStatus() == T.Pending
    ensures m.files[id].fm.TaskStatus() == T.Blocked ==> Disciplined(m, Retry(id, now))
  {
  }

  // ----- finishing a set of tasks -----

  /** What a run keeps of the tickets of a graph: their place in it, and that only active ones are claimed. */
  ghost predicate InPlace(g: Graph, run: Id, m: Machine) {
    forall id | id in g ::
      && id in m.files
      && var fm := m.files[id].fm;
         && fm.id == id && fm.parent == run && fm.deps == g[id]
         && (fm.claimedBy == "" || T.IsActiveStatus(fm.TaskStatus()))
  }

  lemma ChangeKeeps(g: Graph, run: Id, m: Machine, n: Machine, id: Id)
    requires InPlace(g, run, m) && OnlyChanges(m, n, id)
    requires n.files[id].fm.claimedBy == "" || T.IsActiveStatus(n.files[id].fm.TaskStatus())
    ensures InPlace(g, run, n)
  {
  }

  ghost predicate DepsFinished(g: Graph, m: Machine, id: Id)
    requires id in g
  {
    forall d | d in g[id] :: d in g && IsDone(m.files, d)
  }

  lemma InPlaceIsReady(g: Graph, run: Id, m: Machine, id: Id)
    requires InPlace(g, run, m) && id in g && DepsFinished(g, m, id) && T.IsDispatchable(m.files[id].fm.TaskStatus())
    ensures Ready(m.files, run, id) && m.files[id].fm.claimedBy == ""
  {
  }

  /** From `m` the actions lead to `n`, and only `id` has changed. */
  ghost predicate Leads(m: Machine, run: Id, actions: seq<Action>, n: Machine, id: Id) {
    && DisciplinedRun(m, run, actions) && After(m, run, actions) == n
    && m.offers <= n.offers && n.files.Keys == m.files.Keys
    && forall x | x in m.files && x != id :: n.files[x] == m.files[x]
  }

  lemma LeadsThen(m: Machine, run: Id, first: seq<Action>, mid: Machine, a: Action, n: Machine, id: Id)
    requires Leads(m, run, first, mid, id) && Disciplined(mid, a) && n == Next(mid, run, a)
    requires mid.offers <= n.offers && n.files.Keys == mid.files.Keys
    requires forall x | x in mid.files && x != id :: n.files[x] == mid.files[x]
    ensures Leads(m, run, first + [a], n, id)
  {
    hide Next, Disciplined, DisciplinedRun, After;
    RunThen(m, run, first, a);
  }

  lemma LeadsNowhere(m: Machine, run: Id, id: Id)
    ensures Leads(m, run, [], m, id)
  {
  }

  /** A dispatchable task whose dependencies are done is offered by the next poll and can be claimed then. */
  lemma Dispatch(g: Graph, run: Id, m0: Machine, before: seq<Action>, m: Machine, id: Id, owner: string, now: T.Clock)
    returns (actions: seq<Action>, n: Machine)
    requires Leads(m0, run, before, m, id) && InPlace(g, run, m) && id in g && owner != ""
    requires DepsFinished(g, m, id) && T.IsDispatchable(m.files[id].fm.TaskStatus())
    ensures Leads(m0, run, actions, n, id) && InPlace(g, run, n) && InFlight(n.files, id) && id in n.offers
  {
    InPlaceIsReady(g, run, m, id);
    hide Leads, Next, Disciplined, InPlace, InFlight, Ready, T.Frontmatter.TaskStatus;
    PollOffers(m, run, id);
    PollIsDisciplined(m);
    var m1 := Next(m, run, Poll);
    PollKeeps(g, run, m);
    LeadsThen(m0, run, before, m, Poll, m1, id);
    ClaimTakes(m1, run, id, owner, now);
    n := Next(m1, run, ClaimBy(id, owner, now));
    LeadsThen(m0, run, before + [Poll], m1, ClaimBy(id, owner, now), n, id);
    ChangeKeeps(g, run, m1, n, id) by { InFlightIsActive(n.files, id); }
    actions := before + [Poll] + [ClaimBy(id, owner, now)];
  }

  lemma InFlightIsActive(files: Files, id: Id)
    requires InFlight(files, id)
    ensures id in files && T.IsActiveStatus(files[id].fm.TaskStatus())
  {
  }

  lemma PollKeeps(g: Graph, run: Id, m: Machine)
    requires InPlace(g, run, m)
    ensures InPlace(g, run, Next(m, run, Poll))
  {
  }

  lemma PollIsDisciplined(m: Machine)
    ensures Disciplined(m, Poll)
  {
  }

  /** A ticket is done, failed, active, blocked or dispatchable. */
  lemma StatusCases(files: Files, id: Id)
    requires id in files && !IsDone(files, id) && !HasFailed(files, id) && !InFlight(files, id)
    ensures T.IsDispatchable(files[id].fm.TaskStatus()) || files[id].fm.TaskStatus() == T.Blocked
  {
  }

  /** A task whose dependencies are done, and that is neither done nor failed itself, can be brought in flight alone. */
  lemma StartOne(g: Graph, run: Id, m: Machine, id: Id, owner: string, now: T.Clock)
    returns (actions: seq<Action>, n: Machine)
    requires InPlace(g, run, m) && id in g && owner != "" && DepsFinished(g, m, id)
    requires !IsDone(m.files, id) && !HasFailed(m.files, id)
    ensures Leads(m, run, actions, n, id) && InPlace(g, run, n) && InFlight(n.files, id)
    ensures !InFlight(m.files, id) ==> id in n.offers
  {
    LeadsNowhere(m, run, id);
    if InFlight(m.files, id) {
      actions, n := [], m;
    } else {
      StatusCases(m.files, id);
      if m.files[id].fm.TaskStatus() == T.Blocked {
        var m1 := Reopen(g, run, m, id, now);
        actions, n := Dispatch(g, run, m, [Retry(id, now)], m1, id, owner, now);
      } else {
        actions, n := Dispatch(g, run, m, [], m, id, owner, now);
      }
    }
  }

  lemma Reopen(g: Graph, run: Id, m: Machine, id: Id, now: T.Clock) returns (n: Machine)
    requires InPlace(g, run, m) && id in g && DepsFinished(g, m, id) && m.files[id].fm.TaskStatus() == T.Blocked
    ensures Leads(m, run, [Retry(id, now)], n, id) && InPlace(g, run, n) && DepsFinished(g, n, id)
    ensures T.IsDispatchable(n.files[id].fm.TaskStatus())
  {
    RetryReopens(m, run, id, now);
    LeadsNowhere(m, run, id);
    n := Next(m, run, Retry(id, now));
    hide Next, Disciplined, Leads;
    LeadsThen(m, run, [], m, Retry(id, now), n, id);
    ChangeKeeps(g, run, m, n, id);
    assert [] + [Retry(id, now)] == [Retry(id, now)];
  }

  /** Such a task can be run through to done by itself. */
  lemma FinishOne(g: Graph, run: Id, m: Machine, id: Id, now: T.Clock) returns (actions: seq<Action>, n: Machine)
    requires InPlace(g, run, m) && id in g && DepsFinished(g, m, id) && !IsDone(m.files, id) && !HasFailed(m.files, id)
    ensures Leads(m, run, actions, n, id) && InPlace(g, run, n) && IsDone(n.files, id)
    ensures !InFlight(m.files, id) ==> id in n.offers
  {
    var start, m1 := StartOne(g, run, m, id, "w", now);
    var pass := Verify(id, true, "", now);
    assert Disciplined(m1, pass);
    VerdictSettles(m1, run, id, true, "", now);
    n := Next(m1, run, pass);
    hide Next, Disciplined, Leads, InPlace, InFlight;
    LeadsThen(m, run, start, m1, pass, n, id);
    ChangeKeeps(g, run, m1, n, id);
    actions := start + [pass];
  }

  /** Part of a graph that is closed under dependencies and has no cycle. */
  ghost predicate Finishable(g: Graph, h: Graph) {
    && Acyclic(h)
    && (forall x | x in h :: x in g && h[x] == g[x])
    && (forall a, b | Edge(h, a, b) :: b in h)
  }

  lemma {:induction false} FirstUnfinishedIn(h: Graph, files: Files, id: Id) returns (first: Id)
    requires Acyclic(h) && (forall a, b | Edge(h, a, b) :: b in h) && id in h && !IsDone(files, id)
    ensures first in h && !IsDone(files, first) && forall d | d in h[first] :: IsDone(files, d)
    decreases Depth(h, id)
  {
    hide Acyclic, IsDone;
    first := id;
    if d :| d in h[id] && !IsDone(files, d) {
      assert Edge(h, id, d);
      DepthStep(h, id);
      first := FirstUnfinishedIn(h, files, d);
    }
  }

  ghost function Unfinished(h: Graph, m: Machine): set<Id> {
    set x | x in h && !IsDone(m.files, x)
  }

  /** Such a part, with no failed task in it, can be run through to done, offering each of its tasks that is not in
      flight on the way, with nothing else touched. */
  lemma {:induction false} FinishAll(g: Graph, h: Graph, run: Id, m: Machine, now: T.Clock)
    returns (actions: seq<Action>)
    requires InPlace(g, run, m) && Finishable(g, h) && forall x | x in h :: !HasFailed(m.files, x)
    ensures DisciplinedRun(m, run, actions)
    ensures var n := After(m, run, actions);
            && InPlace(g, run, n) && m.offers <= n.offers && n.files.Keys == m.files.Keys
            && (forall x | x in h :: IsDone(n.files, x))
            && (forall x | x in h && !IsDone(m.files, x) && !InFlight(m.files, x) :: x in n.offers)
            && (forall x | x in m.files && x !in h :: n.files[x] == m.files[x])
    decreases Unfinished(h, m)
  {
    hide Acyclic, InPlace, DisciplinedRun, After, IsDone, HasFailed, InFlight;
    if x :| x in h && !IsDone(m.files, x) {
      var first := FirstUnfinishedIn(h, m.files, x);
      forall d | d in g[first] ensures d in g && IsDone(m.files, d) { assert Edge(h, first, d); }
      var one, n := FinishOne(g, run, m, first, now);
      OthersKeepStatus(m.files, n.files, first);
      assert first in Unfinished(h, m) && first !in Unfinished(h, n);
      DoneIsNotFailed(n.files, first);
      var rest := FinishAll(g, h, run, n, now);
      RunConcat(m, run, one, rest);
      actions := one + rest;
    } else {
      actions := [];
      EmptyRun(m, run);
    }
  }

  lemma DoneIsNotFailed(files: Files, id: Id)
    requires IsDone(files, id)
    ensures !HasFailed(files, id)
  {
  }

  lemma EmptyRun(m: Machine, run: Id)
    ensures DisciplinedRun(m, run, []) && After(m, run, []) == m
  {
  }

  lemma OthersKeepStatus(before: Files, after: Files, id: Id)
    requires after.Keys == before.Keys && forall x | x in before && x != id :: after[x] == before[x]
    ensures forall x | x != id :: IsDone(after, x) <==> IsDone(before, x)
    ensures forall x | x != id :: HasFailed(after, x) <==> HasFailed(before, x)
    ensures forall x | x != id :: InFlight(after, x) <==> InFlight(before, x)
  {
  }

  // ----- tasks on a cycle never run -----

  /** Nothing on a cycle has been offered, is in flight or is done. */
  ghost predicate Shut(g: Graph, m: Machine) {
    forall x | Reaches(g, x, x) :: x !in m.offers && !InFlight(m.files, x) && !IsDone(m.files, x)
  }

  /** A node on a cycle depends on another one. */
  lemma CycleContinues(g: Graph, x: Id) returns (y: Id)
    requires Reaches(g, x, x)
    ensures Edge(g, x, y) && Reaches(g, y, y)
  {
    var p :| IsWalkBetween(g, p, x, x);
    y := p[1];
    assert Edge(g, p[0], p[1]);
    var q := p[1..] + [y];
    forall i | 0 <= i < |q| - 1 ensures Edge(g, q[i], q[i + 1]) {
      if i < |p| - 2 { assert Edge(g, p[i + 1], p[i + 2]); }
    }
    assert IsWalkBetween(g, q, y, y);
  }

  lemma StepKeepsShut(g: Graph, m: Machine, run: Id, a: Action)
    requires Sound(g, m) && Shut(g, m) && Disciplined(m, a)
    ensures Shut(g, Next(m, run, a))
  {
    hide Apply, OpOf, Reaches, AllConsistent;
    var n := Next(m, run, a);
    forall x | Reaches(g, x, x) ensures x !in n.offers && !InFlight(n.files, x) && !IsDone(n.files, x) {
      var y := CycleContinues(g, x);
      CycleStaysShut(g, m, run, a, x, y);
    }
  }

  lemma CycleStaysShut(g: Graph, m: Machine, run: Id, a: Action, x: Id, y: Id)
    requires Sound(g, m) && Disciplined(m, a) && Edge(g, x, y) && !IsDone(m.files, y)
    requires x !in m.offers && !InFlight(m.files, x) && !IsDone(m.files, x)
    ensures x !in Next(m, run, a).offers && !InFlight(Next(m, run, a).files, x) && !IsDone(Next(m, run, a).files, x)
  {
    hide AllConsistent;
    if !a.Poll? && a.id in m.files {
      ActionFrame(m, run, a, x);
      if a.id == x {
        assert Consistent(m.files[x].fm) by { TicketConsistent(g, m, x); }
        ActionStatus(m, run, a);
      }
    }
    hide Apply, OpOf;
  }

  lemma {:induction false} RunKeepsShut(g: Graph, m: Machine, run: Id, actions: seq<Action>)
    requires Sound(g, m) && Shut(g, m) && DisciplinedRun(m, run, actions)
    ensures Shut(g, After(m, run, actions))
    decreases |actions|
  {
    hide Sound, Shut, Next, Disciplined;
    if actions != [] {
      StepKeepsSound(g, m, run, actions[0]);
      StepKeepsShut(g, m, run, actions[0]);
      RunKeepsShut(g, Next(m, run, actions[0]), run, actions[1..]);
    }
  }

  /** In no run is a task on a dependency cycle ever dispatched or finished. */
  lemma CycleNeverRuns(tasks: seq<Task>, run: Id, m: Machine, actions: seq<Action>, x: Id)
    requires UniqueIds(tasks) && Initial(tasks, run, m) && DisciplinedRun(m, run, actions)
    requires Reaches(GraphOf(tasks), x, x)
    ensures var n := After(m, run, actions);
            x !in n.offers && !InFlight(n.files, x) && !IsDone(n.files, x)
  {
    hide DisciplinedRun, After, Sound;
    InitialIsSound(tasks, run, m);
    assert Shut(GraphOf(tasks), m) by { InitialIsShut(tasks, run, m); }
    RunKeepsShut(GraphOf(tasks), m, run, actions);
  }

  lemma InitialIsShut(tasks: seq<Task>, run: Id, m: Machine)
    requires UniqueIds(tasks) && Initial(tasks, run, m)
    ensures Shut(GraphOf(tasks), m)
  {
    hide AllConsistent;
    TablesOfUnique(tasks);
    forall x | Reaches(GraphOf(tasks), x, x) ensures x !in m.offers && !InFlight(m.files, x) && !IsDone(m.files, x) {
      var y := CycleContinues(GraphOf(tasks), x);
      assert tasks[Order(tasks)[x]].id == x;
    }
  }

  // ----- the states of a run -----

  /** What holds of every state that a disciplined run can reach. */
  ghost predicate Running(g: Graph, run: Id, m: Machine) {
    Sound(g, m) && Shut(g, m) && forall id | id in g :: id in m.files && m.files[id].fm.parent == run
  }

  lemma {:induction false} RunKeepsRunning(g: Graph, run: Id, m: Machine, actions: seq<Action>)
    requires Running(g, run, m) && DisciplinedRun(m, run, actions)
    ensures Running(g, run, After(m, run, actions))
    decreases |actions|
  {
    hide Sound, Shut, Next, Disciplined;
    if actions != [] {
      StepKeepsSound(g, m, run, actions[0]);
      StepKeepsShut(g, m, run, actions[0]);
      forall id | id in g
        ensures id in Next(m, run, actions[0]).files && Next(m, run, actions[0]).files[id].fm.parent == run
      {
        ActionKeepsParent(m, run, actions[0], id);
      }
      RunKeepsRunning(g, run, Next(m, run, actions[0]), actions[1..]);
    }
  }

  lemma ReachedIsRunning(tasks: seq<Task>, run: Id, m0: Machine, before: seq<Action>)
    requires UniqueIds(tasks) && Initial(tasks, run, m0) && DisciplinedRun(m0, run, before)
    ensures Running(GraphOf(tasks), run, After(m0, run, before))
  {
    hide Sound, Shut, DisciplinedRun, After, AllConsistent;
    InitialIsSound(tasks, run, m0);
    InitialIsShut(tasks, run, m0);
    forall id | id in GraphOf(tasks) ensures id in m0.files && m0.files[id].fm.parent == run {
      FreshTask(tasks, run, m0, id);
    }
    RunKeepsRunning(GraphOf(tasks), run, m0, before);
  }

  lemma FreshTask(tasks: seq<Task>, run: Id, m: Machine, id: Id)
    requires UniqueIds(tasks) && Initial(tasks, run, m) && id in GraphOf(tasks)
    ensures id in m.files && m.files[id].fm.parent == run && m.files[id].fm.TaskStatus() == T.Pending
    ensures !IsDone(m.files, id) && !InFlight(m.files, id) && !HasFailed(m.files, id)
  {
    hide AllConsistent;
    TablesOfUnique(tasks);
    assert tasks[Order(tasks)[id]].id == id;
  }

  lemma RunningIsInPlace(g: Graph, run: Id, m: Machine)
    requires Running(g, run, m)
    ensures InPlace(g, run, m)
  {
    forall id | id in g
      ensures m.files[id].fm.claimedBy == "" || T.IsActiveStatus(m.files[id].fm.TaskStatus())
    {
      TicketConsistent(g, m, id);
    }
    hide AllConsistent, Shut;
  }

  /** Done and failed tasks stay what they are. */
  lemma {:induction false} SettledStays(g: Graph, run: Id, m: Machine, actions: seq<Action>, x: Id)
    requires Sound(g, m) && DisciplinedRun(m, run, actions) && (IsDone(m.files, x) || HasFailed(m.files, x))
    ensures IsDone(m.files, x) ==> IsDone(After(m, run, actions).files, x)
    ensures HasFailed(m.files, x) ==> HasFailed(After(m, run, actions).files, x)
    decreases |actions|
  {
    hide Sound, Next, Disciplined, IsDone, HasFailed;
    if actions != [] {
      StepKeepsSound(g, m, run, actions[0]);
      if IsDone(m.files, x) { DoneStays(g, m, run, actions[0], x); }
      if HasFailed(m.files, x) { FailedStays(g, m, run, actions[0], x); }
      SettledStays(g, run, Next(m, run, actions[0]), actions[1..], x);
    }
  }

  lemma DoneStays(g: Graph, m: Machine, run: Id, a: Action, x: Id)
    requires Sound(g, m) && Disciplined(m, a) && IsDone(m.files, x)
    ensures IsDone(Next(m, run, a).files, x)
  {
    TicketConsistent(g, m, x);
    if !a.Poll? && a.id in m.files && a.id == x {
      ActionStatus(m, run, a);
    }
    ActionFrame(m, run, a, x);
    hide Sound, Next;
  }

  // ----- meeting -----

  /** Neither the task nor anything it waits for waits for itself. */
  ghost predicate Unobstructed(g: Graph, x: Id) {
    !Reaches(g, x, x) && forall y | Reaches(g, x, y) :: !Reaches(g, y, y)
  }

  ghost predicate Unordered(g: Graph, a: Id, b: Id) {
    !Reaches(g, a, b) && !Reaches(g, b, a)
  }

  /** What the given tasks wait for. */
  ghost function Below(g: Graph, a: Id, b: Id): Graph {
    map y | y in g && (Reaches(g, a, y) || Reaches(g, b, y)) :: g[y]
  }

  lemma PartWalks(g: Graph, h: Graph, a: Id, b: Id)
    requires (forall x | x in h :: x in g && h[x] == g[x]) && Reaches(h, a, b)
    ensures Reaches(g, a, b) && a in h
  {
    var p :| IsWalkBetween(h, p, a, b);
    forall k | 0 <= k < |p| - 1 ensures Edge(g, p[k], p[k + 1]) && p[k] in h {
      assert Edge(h, p[k], p[k + 1]);
    }
    assert IsWalkBetween(g, p, a, b);
    assert p[0] in h;
  }

  lemma BelowIsFinishable(g: Graph, a: Id, b: Id)
    requires forall x, y | Edge(g, x, y) :: y in g
    requires Unobstructed(g, a) && Unobstructed(g, b)
    ensures Finishable(g, Below(g, a, b))
  {
    var h := Below(g, a, b);
    hide Reaches;
    forall x ensures !Reaches(h, x, x) {
      if Reaches(h, x, x) {
        PartWalks(g, h, x, x);
        assert false;
      }
    }
    forall x, y | Edge(h, x, y) ensures y in h {
      EdgeReaches(g, x, y);
      if Reaches(g, a, x) { ReachesTransitive(g, a, x, y); } else { ReachesTransitive(g, b, x, y); }
      assert Edge(g, x, y);
    }
  }

  /** Nothing holds the task up: neither it nor anything it waits for waits for itself or has failed. */
  ghost predicate Possible(g: Graph, files: Files, x: Id) {
    Unobstructed(g, x) && !HasFailed(files, x) && forall y | Reaches(g, x, y) :: !HasFailed(files, y)
  }

  lemma BelowFinished(g: Graph, m: Machine, h: Graph, x: Id)
    requires (forall a, b | Edge(g, a, b) :: b in g) && x in g && forall y | y in h :: IsDone(m.files, y)
    requires forall y | y in g && Reaches(g, x, y) :: y in h
    ensures DepsFinished(g, m, x)
  {
    hide Reaches;
    forall d | d in g[x] ensures d in g && IsDone(m.files, d) {
      assert Edge(g, x, d);
      EdgeReaches(g, x, d);
    }
  }

  /** In some disciplined run both are in flight at once. */
  ghost predicate CanMeet(m: Machine, run: Id, a: Id, b: Id) {
    exists actions :: Meets(m, run, actions, a, b)
  }

  ghost predicate Meets(m: Machine, run: Id, actions: seq<Action>, a: Id, b: Id) {
    DisciplinedRun(m, run, actions) && InFlight(After(m, run, actions).files, a)
      && InFlight(After(m, run, actions).files, b)
  }

  /** Two tasks that do not order each other are brought in flight one after the other, once everything below them is
      done. */
  lemma UnorderedMeet(g: Graph, run: Id, m: Machine, a: Id, b: Id)
    requires (forall x, y | Edge(g, x, y) :: y in g) && Running(g, run, m) && a in g && b in g && a != b
    requires Unordered(g, a, b) && Possible(g, m.files, a) && Possible(g, m.files, b)
    requires !IsDone(m.files, a) && !IsDone(m.files, b)
    ensures CanMeet(m, run, a, b)
  {
    RunningIsInPlace(g, run, m);
    BelowIsFinishable(g, a, b);
    hide Running, Reaches, DisciplinedRun, After, InFlight, IsDone, HasFailed, InPlace, Finishable, Edge, DepsFinished;
    var h := Below(g, a, b);
    var first := FinishAll(g, h, run, m, SOME_TIME);
    var n := After(m, run, first);
    assert a !in h && b !in h;
    TicketInPlace(g, run, m, a);
    TicketInPlace(g, run, m, b);
    SameStatus(m.files, n.files, a);
    SameStatus(m.files, n.files, b);
    BelowFinished(g, n, h, a);
    BelowFinished(g, n, h, b);
    StartBoth(g, run, m, first, a, b);
  }

  lemma TicketInPlace(g: Graph, run: Id, m: Machine, x: Id)
    requires InPlace(g, run, m) && x in g
    ensures x in m.files
  {
  }

  lemma StartBoth(g: Graph, run: Id, m: Machine, first: seq<Action>, a: Id, b: Id)
    requires DisciplinedRun(m, run, first) && InPlace(g, run, After(m, run, first)) && a in g && b in g && a != b
    requires var n := After(m, run, first);
             && DepsFinished(g, n, a) && !IsDone(n.files, a) && !HasFailed(n.files, a)
             && DepsFinished(g, n, b) && !IsDone(n.files, b) && !HasFailed(n.files, b)
    ensures CanMeet(m, run, a, b)
  {
    hide DisciplinedRun, After, InFlight, IsDone, HasFailed, InPlace;
    var n := After(m, run, first);
    TicketInPlace(g, run, n, a);
    TicketInPlace(g, run, n, b);
    var one, n1 := StartOne(g, run, n, a, "v", SOME_TIME);
    OthersKeepStatus(n.files, n1.files, a);
    forall d | d in g[b] ensures IsDone(n1.files, d) {
      if d == a { assert false; }
    }
    var two, n2 := StartOne(g, run, n1, b, "w", SOME_TIME);
    OthersKeepStatus(n1.files, n2.files, b);
    RunConcat(n, run, one, two);
    RunConcat(m, run, first, one + two);
    assert Meets(m, run, first + (one + two), a, b);
  }

  lemma ClosedEdges(tasks: seq<Task>)
    requires Closed(tasks)
    ensures forall x, y | Edge(GraphOf(tasks), x, y) :: y in GraphOf(tasks)
  {
  }

  lemma SameStatus(before: Files, after: Files, id: Id)
    requires id in before && id in after && after[id] == before[id]
    ensures IsDone(after, id) <==> IsDone(before, id)
    ensures HasFailed(after, id) <==> HasFailed(before, id)
    ensures InFlight(after, id) <==> InFlight(before, id)
  {
  }

  /** What is done or in flight at the end of a run was possible before it. */
  lemma ReachedWasPossible(g: Graph, run: Id, m: Machine, actions: seq<Action>, x: Id)
    requires Running(g, run, m) && DisciplinedRun(m, run, actions)
    requires InFlight(After(m, run, actions).files, x) || IsDone(After(m, run, actions).files, x)
    ensures Possible(g, m.files, x)
    ensures forall y | Reaches(g, x, y) :: IsDone(After(m, run, actions).files, y)
    ensures InFlight(After(m, run, actions).files, x) ==> !IsDone(m.files, x)
  {
    var n := After(m, run, actions);
    RunKeepsRunning(g, run, m, actions);
    hide DisciplinedRun, After, Sound, AllConsistent, Unobstructed;
    forall y | Reaches(g, x, y) ensures IsDone(n.files, y) {
      var p :| IsWalkBetween(g, p, x, y);
      WalkDone(g, n, p);
    }
    RunningUnobstructed(g, run, n, x);
    forall y | IsDone(m.files, y) || HasFailed(m.files, y)
      ensures (IsDone(m.files, y) ==> IsDone(n.files, y)) && (HasFailed(m.files, y) ==> HasFailed(n.files, y))
    {
      SettledStays(g, run, m, actions, y);
    }
    hide Reaches, Running, IsDone, HasFailed, InFlight;
    OneStatus(n.files);
  }

  lemma OneStatus(files: Files)
    ensures forall x | IsDone(files, x) :: !HasFailed(files, x) && !InFlight(files, x)
    ensures forall x | InFlight(files, x) :: !HasFailed(files, x)
  {
  }

  lemma RunningUnobstructed(g: Graph, run: Id, n: Machine, x: Id)
    requires Running(g, run, n) && (InFlight(n.files, x) || IsDone(n.files, x))
    requires forall y | Reaches(g, x, y) :: IsDone(n.files, y)
    ensures Unobstructed(g, x)
  {
    hide Sound, Reaches, InFlight, IsDone;
  }


  lemma MeetNowIff(g: Graph, run: Id, m: Machine, a: Id, b: Id)
    requires (forall x, y | Edge(g, x, y) :: y in g) && Running(g, run, m) && a in g && b in g && a != b
    ensures CanMeet(m, run, a, b) <==>
              && Unordered(g, a, b) && Possible(g, m.files, a) && Possible(g, m.files, b)
              && !IsDone(m.files, a) && !IsDone(m.files, b)
  {
    hide Running, Possible, DisciplinedRun, After, Edge, Reaches;
    if CanMeet(m, run, a, b) {
      var actions :| Meets(m, run, actions, a, b);
      ReachedWasPossible(g, run, m, actions, a);
      ReachedWasPossible(g, run, m, actions, b);
    }
    if && Unordered(g, a, b) && Possible(g, m.files, a) && Possible(g, m.files, b)
       && !IsDone(m.files, a) && !IsDone(m.files, b)
    {
      UnorderedMeet(g, run, m, a, b);
    }
  }

  /** From any state of a disciplined run, two tasks can still be in flight together exactly when neither is done, the
      dependencies do not order them, and nothing either waits for, itself included, lies on a cycle or has failed. */
  lemma MeetFromIff(tasks: seq<Task>, run: Id, m0: Machine, before: seq<Action>, a: Id, b: Id)
    requires UniqueIds(tasks) && Closed(tasks) && Initial(tasks, run, m0) && DisciplinedRun(m0, run, before)
    requires a in GraphOf(tasks) && b in GraphOf(tasks) && a != b
    ensures var g, m := GraphOf(tasks), After(m0, run, before);
            CanMeet(m, run, a, b) <==>
              && Unordered(g, a, b) && Possible(g, m.files, a) && Possible(g, m.files, b)
              && !IsDone(m.files, a) && !IsDone(m.files, b)
  {
    ClosedEdges(tasks);
    ReachedIsRunning(tasks, run, m0, before);
    hide *;
    MeetNowIff(GraphOf(tasks), run, After(m0, run, before), a, b);
  }

  /** Two tasks can be in flight together exactly when the dependencies do not order them and neither waits, directly or
      not, for a task that waits for itself. */
  lemma MeetIff(tasks: seq<Task>, run: Id, m: Machine, a: Id, b: Id)
    requires UniqueIds(tasks) && Closed(tasks) && Initial(tasks, run, m)
    requires a in GraphOf(tasks) && b in GraphOf(tasks) && a != b
    ensures CanMeet(m, run, a, b) <==>
              Unordered(GraphOf(tasks), a, b) && Unobstructed(GraphOf(tasks), a) && Unobstructed(GraphOf(tasks), b)
  {
    hide UniqueIds, GraphOf, Closed, Initial, Unobstructed, Reaches, DisciplinedRun, After, InFlight, CanMeet, Possible;
    EmptyRun(m, run);
    FreshTask(tasks, run, m, a);
    FreshTask(tasks, run, m, b);
    PossibleAtFirst(tasks, run, m, a);
    PossibleAtFirst(tasks, run, m, b);
    MeetFromIff(tasks, run, m, [], a, b);
  }

  lemma PossibleAtFirst(tasks: seq<Task>, run: Id, m: Machine, x: Id)
    requires UniqueIds(tasks) && Closed(tasks) && Initial(tasks, run, m) && x in GraphOf(tasks)
    ensures Possible(GraphOf(tasks), m.files, x) <==> Unobstructed(GraphOf(tasks), x)
  {
    hide GraphOf, Initial, UniqueIds, Closed, Reaches, HasFailed;
    FreshTask(tasks, run, m, x);
    forall y | Reaches(GraphOf(tasks), x, y) ensures !HasFailed(m.files, y) {
      ReachedIsKnown(tasks, x, y);
      FreshTask(tasks, run, m, y);
    }
  }

  // ----- finishing -----

  ghost predicate CanFinish(m: Machine, run: Id, x: Id) {
    exists actions :: Finishes(m, run, actions, x)
  }

  ghost predicate Finishes(m: Machine, run: Id, actions: seq<Action>, x: Id) {
    DisciplinedRun(m, run, actions) && IsDone(After(m, run, actions).files, x)
  }

  /** Some disciplined run from `m` brings every task of the graph to done. */
  ghost predicate CanFinishAll(g: Graph, m: Machine, run: Id) {
    exists actions :: FinishesAll(g, m, run, actions)
  }

  ghost predicate FinishesAll(g: Graph, m: Machine, run: Id, actions: seq<Action>) {
    DisciplinedRun(m, run, actions) && forall x | x in g :: IsDone(After(m, run, actions).files, x)
  }

  lemma BelowHasNotFailed(g: Graph, files: Files, a: Id, b: Id)
    requires Possible(g, files, a) && Possible(g, files, b)
    ensures forall x | x in Below(g, a, b) :: !HasFailed(files, x)
    ensures a !in Below(g, a, a) && !HasFailed(files, a)
  {
    hide HasFailed, Reaches;
  }

  lemma FinishPossible(g: Graph, run: Id, m: Machine, x: Id)
    requires (forall a, b | Edge(g, a, b) :: b in g) && Running(g, run, m) && x in g && Possible(g, m.files, x)
    ensures CanFinish(m, run, x)
  {
    hide Running, Reaches, DisciplinedRun, After, InFlight, IsDone, HasFailed, InPlace, Finishable, Edge, DepsFinished;
    RunningIsInPlace(g, run, m);
    BelowIsFinishable(g, x, x);
    BelowHasNotFailed(g, m.files, x, x);
    hide Possible, Unobstructed;
    var h := Below(g, x, x);
    var first := FinishAll(g, h, run, m, SOME_TIME);
    var n := After(m, run, first);
    TicketInPlace(g, run, m, x);
    SameStatus(m.files, n.files, x);
    if IsDone(m.files, x) {
      assert Finishes(m, run, first, x);
    } else {
      BelowFinished(g, n, h, x);
      var last, end := FinishOne(g, run, n, x, SOME_TIME);
      RunConcat(m, run, first, last);
      assert Finishes(m, run, first + last, x);
    }
  }

  /** From any state of a disciplined run, a task can be brought to done exactly when nothing it waits for, itself
      included, lies on a cycle or has failed. */
  lemma FinishFromIff(tasks: seq<Task>, run: Id, m0: Machine, before: seq<Action>, x: Id)
    requires UniqueIds(tasks) && Closed(tasks) && Initial(tasks, run, m0) && DisciplinedRun(m0, run, before)
    requires x in GraphOf(tasks)
    ensures CanFinish(After(m0, run, before), run, x) <==> Possible(GraphOf(tasks), After(m0, run, before).files, x)
  {
    var g, m := GraphOf(tasks), After(m0, run, before);
    ClosedEdges(tasks);
    ReachedIsRunning(tasks, run, m0, before);
    hide GraphOf, Closed, Initial, Running, Possible, DisciplinedRun, After, Edge;
    if CanFinish(m, run, x) {
      var actions :| Finishes(m, run, actions, x);
      ReachedWasPossible(g, run, m, actions, x);
    }
    if Possible(g, m.files, x) { FinishPossible(g, run, m, x); }
  }

  /** At first, exactly when neither it nor anything it waits for waits for itself. */
  lemma FinishIff(tasks: seq<Task>, run: Id, m: Machine, x: Id)
    requires UniqueIds(tasks) && Closed(tasks) && Initial(tasks, run, m) && x in GraphOf(tasks)
    ensures CanFinish(m, run, x) <==> Unobstructed(GraphOf(tasks), x)
  {
    hide UniqueIds, GraphOf, Closed, Initial, Unobstructed, Possible, DisciplinedRun, After, CanFinish;
    EmptyRun(m, run);
    PossibleAtFirst(tasks, run, m, x);
    FinishFromIff(tasks, run, m, [], x);
  }

  /** From any state of a disciplined run, one run can bring all tasks to done exactly when the dependencies have no
      cycle and no task has failed. */
  lemma FinishAllFromIff(tasks: seq<Task>, run: Id, m0: Machine, before: seq<Action>)
    requires UniqueIds(tasks) && Closed(tasks) && Initial(tasks, run, m0) && DisciplinedRun(m0, run, before)
    ensures var g, m := GraphOf(tasks), After(m0, run, before);
            CanFinishAll(g, m, run) <==> Acyclic(g) && forall x | x in g :: !HasFailed(m.files, x)
  {
    var g, m := GraphOf(tasks), After(m0, run, before);
    ClosedEdges(tasks);
    ReachedIsRunning(tasks, run, m0, before);
    RunningIsInPlace(g, run, m);
    hide GraphOf, Closed, Initial, Running, Reaches, DisciplinedRun, After, HasFailed, IsDone, InPlace;
    if actions :| FinishesAll(g, m, run, actions) {
      forall x | x in g ensures !HasFailed(m.files, x) && !Reaches(g, x, x) {
        ReachedWasPossible(g, run, m, actions, x);
      }
      forall x ensures !Reaches(g, x, x) {
        if Reaches(g, x, x) { var y := CycleContinues(g, x); }
      }
    }
    if Acyclic(g) && forall x | x in g :: !HasFailed(m.files, x) {
      var actions := FinishAll(g, g, run, m, SOME_TIME);
      assert FinishesAll(g, m, run, actions);
    }
  }

  /** From the start, exactly when the dependencies have no cycle. */
  lemma FinishAllIff(tasks: seq<Task>, run: Id, m: Machine)
    requires UniqueIds(tasks) && Closed(tasks) && Initial(tasks, run, m)
    ensures CanFinishAll(GraphOf(tasks), m, run) <==> Acyclic(GraphOf(tasks))
  {
    hide UniqueIds, GraphOf, Closed, Initial, Acyclic, DisciplinedRun, After, CanFinishAll, HasFailed;
    EmptyRun(m, run);
    forall x | x in GraphOf(tasks) ensures !HasFailed(m.files, x) { FreshTask(tasks, run, m, x); }
    FinishAllFromIff(tasks, run, m, []);
  }

  // ----- late writes -----

  /** A run that finishes `a` and everything else `b` waits for, and starts `b`. */
  lemma StartDependent(tasks: seq<Task>, run: Id, m: Machine, a: Id, b: Id) returns (start: seq<Action>)
    requires UniqueIds(tasks) && Closed(tasks) && Initial(tasks, run, m)
    requires b in GraphOf(tasks) && Reaches(GraphOf(tasks), b, a) && Unobstructed(GraphOf(tasks), b)
    ensures DisciplinedRun(m, run, start)
    ensures var n := After(m, run, start);
            && a != b && a in n.offers && a in n.files && n.files[a].fm.id == a
            && IsDone(n.files, a) && InFlight(n.files, b)
  {
    var g := GraphOf(tasks);
    EmptyRun(m, run);
    ReachedIsRunning(tasks, run, m, []);
    RunningIsInPlace(g, run, m);
    ClosedEdges(tasks);
    BelowIsFinishable(g, b, b);
    ReachedIsKnown(tasks, b, a);
    FreshTask(tasks, run, m, a);
    FreshTask(tasks, run, m, b);
    PossibleAtFirst(tasks, run, m, b);
    hide GraphOf, Initial, Running, Reaches, DisciplinedRun, After, InFlight, IsDone, HasFailed, Finishable, InPlace;
    hide DepsFinished;
    var first := FinishAll(g, Below(g, b, b), run, m, SOME_TIME);
    var n := After(m, run, first);
    assert a in Below(g, b, b) && b !in Below(g, b, b);
    SameStatus(m.files, n.files, b);
    BelowFinished(g, n, Below(g, b, b), b);
    var last, n1 := StartOne(g, run, n, b, "w", SOME_TIME);
    TicketInPlace(g, run, n, a);
    SameStatus(n.files, n1.files, a);
    IdInPlace(g, run, n1, a);
    RunConcat(m, run, first, last);
    start := first + last;
  }

  lemma IdInPlace(g: Graph, run: Id, m: Machine, x: Id)
    requires InPlace(g, run, m) && x in g
    ensures x in m.files && m.files[x].fm.id == x
  {
  }

  lemma ReachedIsKnown(tasks: seq<Task>, b: Id, a: Id)
    requires Closed(tasks) && Reaches(GraphOf(tasks), b, a)
    ensures a in GraphOf(tasks)
  {
    hide GraphOf;
    var p :| IsWalkBetween(GraphOf(tasks), p, b, a);
    assert Edge(GraphOf(tasks), p[|p| - 2], p[|p| - 1]);
  }

  /** A pending task that has been offered can be claimed; nothing else changes. */
  lemma ReclaimOffered(m: Machine, run: Id, a: Id, b: Id)
    requires a in m.offers && a in m.files && a != b && InFlight(m.files, b)
    requires m.files[a].fm.claimedBy == "" && m.files[a].fm.TaskStatus() == T.Pending
    ensures var c := ClaimBy(a, "v", SOME_TIME);
            var n := Next(m, run, c);
            Disciplined(m, c) && InFlight(n.files, a) && InFlight(n.files, b)
  {
    ClaimTakes(m, run, a, "v", SOME_TIME);
    hide Next, Disciplined;
  }

  /** One verdict on a task that is no longer in flight undoes the order: whichever task `a` a task `b` waits for,
      there is a run in which `a` passes, `b` starts, a failing verdict on `a` comes late, and after a retry and a
      claim of the old offer both are in flight. Every other action is disciplined. */
  lemma LateVerdictDefeatsOrder(tasks: seq<Task>, run: Id, m: Machine, a: Id, b: Id)
    returns (start: seq<Action>, finish: seq<Action>)
    requires UniqueIds(tasks) && Closed(tasks) && Initial(tasks, run, m)
    requires b in GraphOf(tasks) && Reaches(GraphOf(tasks), b, a) && Unobstructed(GraphOf(tasks), b)
    ensures DisciplinedRun(m, run, start) && !InFlight(After(m, run, start).files, a)
    ensures var n := Next(After(m, run, start), run, Verify(a, false, "late", SOME_TIME));
            DisciplinedRun(n, run, finish) && Meets(n, run, finish, a, b)
  {
    start := StartDependent(tasks, run, m, a, b);
    var n0 := After(m, run, start);
    var n := Next(n0, run, Verify(a, false, "late", SOME_TIME));
    assert !InFlight(n0.files, a);
    VerdictSettles(n0, run, a, false, "late", SOME_TIME);
    RetryReopens(n, run, a, SOME_TIME);
    var n1 := Next(n, run, Retry(a, SOME_TIME));
    hide Next, Disciplined, DisciplinedRun, After;
    ReclaimOffered(n1, run, a, b);
    RunOne(n, run, Retry(a, SOME_TIME));
    RunThen(n, run, [Retry(a, SOME_TIME)], ClaimBy(a, "v", SOME_TIME));
    finish := [Retry(a, SOME_TIME)] + [ClaimBy(a, "v", SOME_TIME)];
  }

  /** So does one retry whose check of the status was made before the task was done. */
  lemma LateResetDefeatsOrder(tasks: seq<Task>, run: Id, m: Machine, a: Id, b: Id)
    returns (start: seq<Action>, finish: seq<Action>)
    requires UniqueIds(tasks) && Closed(tasks) && Initial(tasks, run, m)
    requires b in GraphOf(tasks) && Reaches(GraphOf(tasks), b, a) && Unobstructed(GraphOf(tasks), b)
    ensures DisciplinedRun(m, run, start) && IsDone(After(m, run, start).files, a)
    ensures var n := Next(After(m, run, start), run, Retry(a, SOME_TIME));
            DisciplinedRun(n, run, finish) && Meets(n, run, finish, a, b)
  {
    start := StartDependent(tasks, run, m, a, b);
    var n0 := After(m, run, start);
    var n := Next(n0, run, Retry(a, SOME_TIME));
    RetryReopens(n0, run, a, SOME_TIME);
    hide Next, Disciplined, DisciplinedRun, After;
    ReclaimOffered(n, run, a, b);
    RunOne(n, run, ClaimBy(a, "v", SOME_TIME));
    finish := [ClaimBy(a, "v", SOME_TIME)];
  }

  /** In particular two slices on the same files in different waves of a compiled plan: the late verdict puts clashing
      tasks in flight. */
  lemma LateVerdictClashes(slices: seq<Slice>, tasks: seq<Task>, run: Id, m: Machine, i: nat, j: nat)
    returns (start: seq<Action>, finish: seq<Action>)
    requires Numbered(slices) && AllEarlier(slices) && CompiledFrom(slices, tasks) && Initial(tasks, run, m)
    requires i < |slices| && j < |slices| && WaveAt(slices, i) < WaveAt(slices, j) && Clash(tasks[i], tasks[j])
    ensures DisciplinedRun(m, run, start) && !InFlight(After(m, run, start).files, tasks[i].id)
    ensures var n := Next(After(m, run, start), run, Verify(tasks[i].id, false, "late", SOME_TIME));
            DisciplinedRun(n, run, finish) && Meets(n, run, finish, tasks[i].id, tasks[j].id)
  {
    CompiledTables(slices, tasks);
    CompiledIsClosed(slices, tasks);
    EarlierIsAcyclic(slices, tasks);
    hide GraphOf, Reaches, CompiledFrom, Initial, Clash, Closed, DisciplinedRun, After, Next, Meets, InFlight;
    hide AllEarlier;
    WaitsForEarlierWaves(slices, tasks, j, i);
    start, finish := LateVerdictDefeatsOrder(tasks, run, m, tasks[i].id, tasks[j].id);
  }
}

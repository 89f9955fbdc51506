/** The dispatch loop as a state machine over the ticket store: polls, claims, verdicts, retries, sweeps. */
module RunMachine {
  import opened Graphs
  import opened Paths
  import opened Tasks
  import opened WaveNames
  import opened Plans
  import opened Barriers
  import T = Tickets
  import opened Claims

  // ----- the plan a run executes -----

  /** Two slices of one wave never touch the same files, and every slice says what it owns. */
  ghost predicate WavesConflictFree(slices: seq<Slice>)
    requires Numbered(slices)
  {
    && (forall i | 0 <= i < |slices| :: slices[i].ownedPaths != [])
    && (forall i, j | 0 <= i < j < |slices| && WaveAt(slices, i) == WaveAt(slices, j) ::
          !ScopesOverlap(slices[i].Scope(), slices[j].Scope()))
  }

  // ----- machine -----

  /** The tickets, and the tasks some poll has offered to some worker (possibly long ago). */
  datatype Machine = Machine(files: Files, offers: set<Id>)

  datatype Action =
    | Poll
    | Claim(id: Id, owner: string, backend: string, lease: T.Duration, now: T.Clock)
    | Renew(id: Id, owner: string, lease: T.Duration, now: T.Clock)
    | Release(id: Id, owner: string, status: T.Status, reason: string, now: T.Clock)
    | Sweep(id: Id, scanned: T.Clock)
    | Verify(id: Id, pass: bool, reason: string, now: T.Clock)
    | Retry(id: Id, now: T.Clock)
    | Note(id: Id, note: string)

  predicate IsDone(files: Files, id: Id) {
    id in files && files[id].fm.TaskStatus() == T.Done
  }

  predicate InFlight(files: Files, id: Id) {
    id in files && T.IsActiveStatus(files[id].fm.TaskStatus())
  }

  predicate HasFailed(files: Files, id: Id) {
    id in files && files[id].fm.TaskStatus() == T.Failed
  }

  /** `GetPendingTasks`: dispatchable, and every dependency is a done task of the run. */
  predicate Ready(files: Files, run: Id, id: Id) {
    && id in files && files[id].fm.parent == run
    && T.IsDispatchable(files[id].fm.TaskStatus())
    && forall d | d in files[id].fm.deps :: IsDone(files, d) && files[d].fm.parent == run
  }

  /** The store operation an action performs, if any. */
  function OpOf(files: Files, a: Action): Op
    requires !a.Poll? && a.id in files
  {
    match a
    case Claim(id, owner, backend, lease, now) => Op.Claim(id, owner, backend, lease, now)
    case Renew(id, owner, lease, now) => Op.Renew(id, owner, lease, now)
    case Release(id, owner, status, reason, now) => Op.Release(id, owner, status, reason, now)
    case Sweep(id, scanned) => Op.Reclaim(id, scanned)
    case Verify(id, pass, reason, now) =>
      var task := T.FrontmatterToTask(files[id].fm);
      var status := if pass then T.Done else T.Blocked;
      Op.Write(task.(id := id, status := status, reason := if pass then "" else reason), "", now)
    case Retry(id, now) => Op.SetStatus(id, T.Pending, "", now)
    case Note(id, note) => Op.Note(id, note)
  }

  function Next(m: Machine, run: Id, a: Action): Machine {
    if a.Poll? then m.(offers := m.offers + (set id | id in m.files && Ready(m.files, run, id)))
    else if a.id in m.files then m.(files := Apply(m.files, OpOf(m.files, a)))
    else m
  }

  /** The discipline of a run: only offered tasks are claimed, by someone with a name; only in-flight tasks
      are given a verdict; only blocked or repair-pending ones are retried. */
  predicate Disciplined(m: Machine, a: Action) {
    match a
    case Claim(id, owner, backend, _, _) => id in m.offers && owner != "" && backend != ""
    case Verify(id, _, _, _) => InFlight(m.files, id)
    case Retry(id, _) =>
      id in m.files && (m.files[id].fm.TaskStatus() == T.Blocked || m.files[id].fm.TaskStatus() == T.RepairPending)
    case _ => true
  }

  function After(m: Machine, run: Id, actions: seq<Action>): Machine
    decreases |actions|
  {
    if actions == [] then m else After(Next(m, run, actions[0]), run, actions[1..])
  }

  predicate DisciplinedRun(m: Machine, run: Id, actions: seq<Action>)
    decreases |actions|
  {
    actions == [] || (Disciplined(m, actions[0]) && DisciplinedRun(Next(m, run, actions[0]), run, actions[1..]))
  }

  // ----- invariant -----

  ghost predicate DepsDone(files: Files, id: Id)
    requires id in files
  {
    forall d | d in files[id].fm.deps :: IsDone(files, d)
  }

  /** The tickets keep the compiled dependencies, are consistent, and whatever has been offered, is in flight
      or is done has all its dependencies done. */
  ghost predicate Sound(g: Graph, m: Machine) {
    && AllConsistent(m.files)
    && (forall id | id in g :: id in m.files && m.files[id].fm.id == id && m.files[id].fm.deps == g[id])
    && (forall id | id in g && id in m.offers :: DepsDone(m.files, id))
    && (forall id | id in g && (InFlight(m.files, id) || IsDone(m.files, id)) :: DepsDone(m.files, id))
  }

  /** An action leaves identity and dependencies of every ticket alone, and moves no ticket but its own. */
  lemma ActionFrame(m: Machine, run: Id, a: Action, id: Id)
    requires id in m.files && (a.Verify? || a.Retry? ==> a.id in m.files)
    ensures id in Next(m, run, a).files
    ensures Next(m, run, a).files[id].fm.deps == m.files[id].fm.deps
    ensures m.files[id].fm.id == id ==> Next(m, run, a).files[id].fm.id == id
    ensures a.Poll? || a.id != id ==> Next(m, run, a).files[id] == m.files[id]
  {
  }

  /** How an action can change the status of its own ticket. */
  lemma ActionStatus(m: Machine, run: Id, a: Action)
    requires !a.Poll? && a.id in m.files && Consistent(m.files[a.id].fm) && Disciplined(m, a)
    ensures var before, after := m.files[a.id].fm.TaskStatus(), Next(m, run, a).files[a.id].fm.TaskStatus();
            && (before == T.Done ==> after == T.Done)
            && (T.IsActiveStatus(after) || after == T.Done ==>
                  T.IsActiveStatus(before) || before == T.Done || a.id in m.offers)
  {
  }

  lemma StepConsistent(m: Machine, run: Id, a: Action)
    requires AllConsistent(m.files) && Disciplined(m, a)
    ensures AllConsistent(Next(m, run, a).files)
  {
    if !a.Poll? && a.id in m.files {
      ApplyKeepsConsistent(m.files, OpOf(m.files, a));
    }
  }

  lemma ActionKeepsParent(m: Machine, run: Id, a: Action, id: Id)
    requires id in m.files && Disciplined(m, a)
    ensures id in Next(m, run, a).files && Next(m, run, a).files[id].fm.parent == m.files[id].fm.parent
  {
  }

  lemma TicketConsistent(g: Graph, m: Machine, x: Id)
    requires Sound(g, m) && x in m.files
    ensures Consistent(m.files[x].fm)
  {
  }

  /** No action of a disciplined run revives a failed task. */
  lemma FailedStays(g: Graph, m: Machine, run: Id, a: Action, id: Id)
    requires Sound(g, m) && HasFailed(m.files, id) && Disciplined(m, a)
    ensures HasFailed(Next(m, run, a).files, id)
  {
    TicketConsistent(g, m, id);
    hide Sound, AllConsistent;
    if !a.Poll? && a.id == id { FailedTicketStays(m, run, a); }
    if a.Poll? || a.id != id { ActionFrame(m, run, a, id); }
    hide Next;
  }

  lemma FailedTicketStays(m: Machine, run: Id, a: Action)
    requires !a.Poll? && HasFailed(m.files, a.id) && Consistent(m.files[a.id].fm) && Disciplined(m, a)
    ensures HasFailed(Next(m, run, a).files, a.id)
  {
  }

  lemma SoundIsConsistent(g: Graph, m: Machine)
    requires Sound(g, m)
    ensures AllConsistent(m.files) && forall id | id in m.files :: Consistent(m.files[id].fm)
  {
  }

  lemma StepKeepsSound(g: Graph, m: Machine, run: Id, a: Action)
    requires Sound(g, m) && Disciplined(m, a)
    ensures Sound(g, Next(m, run, a))
  {
    hide Next, AllConsistent, Sound, Ready;
    var n := Next(m, run, a);
    SoundIsConsistent(g, m);
    StepConsistent(m, run, a);
    forall id | id in m.files
      ensures id in n.files && n.files[id].fm.deps == m.files[id].fm.deps
              && (m.files[id].fm.id == id ==> n.files[id].fm.id == id)
              && (a.Poll? || a.id != id ==> n.files[id] == m.files[id])
    {
      ActionFrame(m, run, a, id);
    }
    if !a.Poll? && a.id in m.files {
      ActionStatus(m, run, a);
    }
    StepDone(g, m, run, a, n);
  }

  lemma StepDone(g: Graph, m: Machine, run: Id, a: Action, n: Machine)
    requires Sound(g, m) && n == Next(m, run, a) && AllConsistent(n.files)
    requires forall id | id in m.files ::
               id in n.files && n.files[id].fm.deps == m.files[id].fm.deps
               && (m.files[id].fm.id == id ==> n.files[id].fm.id == id)
               && (a.Poll? || a.id != id ==> n.files[id] == m.files[id])
    requires !a.Poll? && a.id in m.files ==>
               var before, after := m.files[a.id].fm.TaskStatus(), n.files[a.id].fm.TaskStatus();
               && (before == T.Done ==> after == T.Done)
               && (T.IsActiveStatus(after) || after == T.Done ==>
                     T.IsActiveStatus(before) || before == T.Done || a.id in m.offers)
    ensures Sound(g, n)
  {
    hide AllConsistent, Apply, OpOf;
    forall d | IsDone(m.files, d) ensures IsDone(n.files, d) {
    }
    forall id | id in g && DepsDone(m.files, id) ensures DepsDone(n.files, id) {
    }
    forall id | id in g && id in n.offers ensures DepsDone(n.files, id) {
      if id !in m.offers {
        assert Ready(m.files, run, id);
      }
    }
    forall id | id in g && (InFlight(n.files, id) || IsDone(n.files, id)) ensures DepsDone(n.files, id) {
    }
  }

  lemma {:induction false} RunKeepsSound(g: Graph, m: Machine, run: Id, actions: seq<Action>)
    requires Sound(g, m) && DisciplinedRun(m, run, actions)
    ensures Sound(g, After(m, run, actions))
    decreases |actions|
  {
    if actions != [] {
      StepKeepsSound(g, m, run, actions[0]);
      RunKeepsSound(g, Next(m, run, actions[0]), run, actions[1..]);
    }
  }

  // ----- mutual exclusion -----

  /** Everything an in-flight or done task transitively depends on is done. */
  lemma {:induction false} WalkDone(g: Graph, m: Machine, p: seq<Id>)
    requires Sound(g, m) && IsWalk(g, p) && |p| >= 2
    requires InFlight(m.files, p[0]) || IsDone(m.files, p[0])
    ensures IsDone(m.files, p[|p| - 1])
  {
    assert Edge(g, p[0], p[1]);
    assert DepsDone(m.files, p[0]);
    assert IsDone(m.files, p[1]);
    if |p| > 2 {
      forall i | 0 <= i < |p[1..]| - 1 ensures Edge(g, p[1..][i], p[1..][i + 1]) {
        assert Edge(g, p[i + 1], p[i + 2]);
      }
      WalkDone(g, m, p[1..]);
    }
  }

  /** In a sound state no two in-flight tasks of a conflict-free plan clash. */
  lemma SoundExcludes(slices: seq<Slice>, tasks: seq<Task>, m: Machine, i: nat, j: nat)
    requires Numbered(slices) && WavesConflictFree(slices) && CompiledFrom(slices, tasks)
    requires Sound(GraphOf(tasks), m)
    requires i < |tasks| && j < |tasks| && i != j
    requires InFlight(m.files, tasks[i].id) && InFlight(m.files, tasks[j].id)
    ensures !Clash(tasks[i], tasks[j])
  {
    hide TaskIdFromSliceId, WaveIndex, CompiledDep, Sound, GraphOf;
    assert tasks[i].Scope() == slices[i].Scope() && tasks[j].Scope() == slices[j].Scope();
    if WaveAt(slices, i) < WaveAt(slices, j) {
      LaterWaits(slices, tasks, m, j, i);
      assert false;
    } else if WaveAt(slices, j) < WaveAt(slices, i) {
      LaterWaits(slices, tasks, m, i, j);
      assert false;
    } else {
      ScopesOverlapSymmetric(slices[i].Scope(), slices[j].Scope());
    }
  }

  lemma LaterWaits(slices: seq<Slice>, tasks: seq<Task>, m: Machine, later: nat, earlier: nat)
    requires Numbered(slices) && CompiledFrom(slices, tasks) && Sound(GraphOf(tasks), m)
    requires later < |slices| && earlier < |slices| && WaveAt(slices, earlier) < WaveAt(slices, later)
    requires InFlight(m.files, tasks[later].id)
    ensures !InFlight(m.files, tasks[earlier].id)
  {
    hide TaskIdFromSliceId, WaveIndex, CompiledDep, Sound, GraphOf;
    WaitsForEarlierWaves(slices, tasks, later, earlier);
    var p :| IsWalkBetween(GraphOf(tasks), p, tasks[later].id, tasks[earlier].id);
    WalkDone(GraphOf(tasks), m, p);
  }

  /** A run starts from the tickets `WriteTasks` makes of the compiled tasks: all pending, none claimed. */
  ghost predicate Initial(tasks: seq<Task>, run: Id, m: Machine) {
    && m.offers == {}
    && AllConsistent(m.files)
    && (forall i | 0 <= i < |tasks| ::
          && tasks[i].id in m.files
          && var fm := m.files[tasks[i].id].fm;
             fm.id == tasks[i].id && fm.deps == tasks[i].dependsOn && fm.parent == run && fm.TaskStatus() == T.Pending)
  }

  lemma InitialIsSound(tasks: seq<Task>, run: Id, m: Machine)
    requires UniqueIds(tasks) && Initial(tasks, run, m)
    ensures Sound(GraphOf(tasks), m)
  {
    hide AllConsistent, UniqueIds, TaskMap, Order, T.Frontmatter.TaskStatus;
    TablesOfUnique(tasks);
    forall id | id in GraphOf(tasks)
      ensures id in m.files && m.files[id].fm.id == id && m.files[id].fm.deps == GraphOf(tasks)[id]
              && m.files[id].fm.TaskStatus() == T.Pending
    {
      assert tasks[Order(tasks)[id]].id == id;
    }
  }

  /** In every disciplined run of a conflict-free plan, no two tasks that are in flight at the same time
      touch overlapping files. */
  lemma NoClashInFlight(slices: seq<Slice>, tasks: seq<Task>, run: Id, m: Machine, actions: seq<Action>, i: nat, j: nat)
    requires Numbered(slices) && WavesConflictFree(slices) && CompiledFrom(slices, tasks)
    requires Initial(tasks, run, m) && DisciplinedRun(m, run, actions)
    requires i < |tasks| && j < |tasks| && i != j
    ensures var files := After(m, run, actions).files;
            InFlight(files, tasks[i].id) && InFlight(files, tasks[j].id) ==> !Clash(tasks[i], tasks[j])
  {
    hide Initial, DisciplinedRun, After, Sound, Clash, CompiledFrom, WavesConflictFree;
    CompiledTables(slices, tasks);
    InitialIsSound(tasks, run, m);
    RunKeepsSound(GraphOf(tasks), m, run, actions);
    var n := After(m, run, actions);
    if InFlight(n.files, tasks[i].id) && InFlight(n.files, tasks[j].id) {
      SoundExcludes(slices, tasks, n, i, j);
    }
  }

  /** What a verdict on `id`, or its reset, does to the tickets, in terms of status only. */
  ghost predicate Judged(m: Machine, n: Machine, id: Id, pass: bool) {
    && n.offers == m.offers && AllConsistent(n.files) && id in m.files
    && (forall x | x in m.files :: x in n.files && n.files[x].fm.deps == m.files[x].fm.deps
                                   && (m.files[x].fm.id == x ==> n.files[x].fm.id == x))
    && (forall x | x != id ::
          (IsDone(n.files, x) <==> IsDone(m.files, x)) && (InFlight(n.files, x) <==> InFlight(m.files, x)))
    && (IsDone(n.files, id) <==> pass) && !InFlight(n.files, id)
  }

  lemma VerdictStatus(m: Machine, run: Id, id: Id, pass: bool, reason: string, now: T.Clock)
    requires id in m.files
    ensures var n := Next(m, run, Verify(id, pass, reason, now));
            id in n.files && n.offers == m.offers && n.files.Keys == m.files.Keys
            && n.files[id].fm.TaskStatus() == if pass then T.Done else T.Blocked
  {
  }

  lemma VerdictJudges(m: Machine, run: Id, id: Id, pass: bool, reason: string, now: T.Clock)
    requires AllConsistent(m.files) && id in m.files
    ensures Judged(m, Next(m, run, Verify(id, pass, reason, now)), id, pass)
  {
    var a := Verify(id, pass, reason, now);
    var n := Next(m, run, a);
    assert AllConsistent(n.files) by { ApplyKeepsConsistent(m.files, OpOf(m.files, a)); }
    VerdictStatus(m, run, id, pass, reason, now);
    hide AllConsistent, Next, Apply, OpOf, Judged;
    forall x | x in m.files ensures x in n.files && n.files[x].fm.deps == m.files[x].fm.deps
        && (m.files[x].fm.id == x ==> n.files[x].fm.id == x) && (x != id ==> n.files[x] == m.files[x]) {
      ActionFrame(m, run, a, x);
    }
    JudgedWhen(m, n, id, pass);
  }

  lemma JudgedWhen(m: Machine, n: Machine, id: Id, pass: bool)
    requires n.offers == m.offers && AllConsistent(n.files) && n.files.Keys == m.files.Keys && id in m.files
    requires forall x | x in m.files ::
               && n.files[x].fm.deps == m.files[x].fm.deps
               && (m.files[x].fm.id == x ==> n.files[x].fm.id == x)
               && (x != id ==> n.files[x] == m.files[x])
    requires if pass then n.files[id].fm.TaskStatus().Done?
             else n.files[id].fm.TaskStatus().Blocked? || n.files[id].fm.TaskStatus().Pending?
    ensures Judged(m, n, id, pass)
  {
    hide AllConsistent;
  }

  lemma ResetStatus(m: Machine, run: Id, id: Id, now: T.Clock)
    requires id in m.files
    ensures var n := Next(m, run, Retry(id, now));
            id in n.files && n.offers == m.offers && n.files.Keys == m.files.Keys
              && n.files[id].fm.TaskStatus() == T.Pending
  {
  }

  lemma ResetJudges(m: Machine, run: Id, id: Id, now: T.Clock)
    requires AllConsistent(m.files) && id in m.files
    ensures Judged(m, Next(m, run, Retry(id, now)), id, false)
  {
    var a := Retry(id, now);
    var n := Next(m, run, a);
    assert AllConsistent(n.files) by { ApplyKeepsConsistent(m.files, OpOf(m.files, a)); }
    ResetStatus(m, run, id, now);
    hide AllConsistent, Next, Apply, OpOf, Judged;
    forall x | x in m.files ensures x in n.files && n.files[x].fm.deps == m.files[x].fm.deps
        && (m.files[x].fm.id == x ==> n.files[x].fm.id == x) && (x != id ==> n.files[x] == m.files[x]) {
      ActionFrame(m, run, a, x);
    }
    JudgedWhen(m, n, id, false);
  }

  /** A failure leaves no task that others have been offered, or run, on the strength of. */
  ghost predicate Unused(g: Graph, m: Machine, id: Id) {
    forall x | x in g && id in g[x] :: x !in m.offers && !InFlight(m.files, x) && !IsDone(m.files, x)
  }

  lemma JudgedSound(g: Graph, m: Machine, n: Machine, id: Id, pass: bool)
    requires Sound(g, m) && id in g && Judged(m, n, id, pass)
    requires pass ==> DepsDone(m.files, id)
    requires !pass && IsDone(m.files, id) ==> Unused(g, m, id)
    ensures Sound(g, n)
  {
    hide AllConsistent;
    forall x | x in g && DepsDone(m.files, x) && (pass || !IsDone(m.files, id) || id !in g[x])
      ensures DepsDone(n.files, x)
    {
    }
  }

  lemma JudgedUnsound(g: Graph, m: Machine, n: Machine, id: Id, pass: bool)
    requires Sound(g, m) && id in g && id !in g[id] && Judged(m, n, id, pass)
    requires Sound(g, n)
    ensures pass ==> DepsDone(m.files, id)
    ensures !pass && IsDone(m.files, id) ==> Unused(g, m, id)
  {
    hide AllConsistent;
    if pass {
      assert DepsDone(n.files, id);
      forall d | d in m.files[id].fm.deps ensures IsDone(m.files, d) {
        assert IsDone(n.files, d);
      }
    }
  }

  /** A verdict on any task, in flight or not, keeps the state sound exactly when a pass finds the
      dependencies done, and a failure does not un-finish a task that others have built on. */
  lemma VerdictKeepsSoundIff(g: Graph, m: Machine, run: Id, id: Id, pass: bool, reason: string, now: T.Clock)
    requires Sound(g, m) && id in g && id !in g[id]
    ensures Sound(g, Next(m, run, Verify(id, pass, reason, now))) <==>
              (pass ==> DepsDone(m.files, id)) && (!pass && IsDone(m.files, id) ==> Unused(g, m, id))
  {
    var n := Next(m, run, Verify(id, pass, reason, now));
    VerdictJudges(m, run, id, pass, reason, now);
    hide Sound, Judged, Unused, Next;
    if (pass ==> DepsDone(m.files, id)) && (!pass && IsDone(m.files, id) ==> Unused(g, m, id)) {
      JudgedSound(g, m, n, id, pass);
    }
    if Sound(g, n) {
      JudgedUnsound(g, m, n, id, pass);
    }
  }

  /** A retry written late, when its task is no longer the blocked one it was checked to be, keeps the state sound
      exactly when it does not un-finish a task that others have built on. */
  lemma ResetKeepsSoundIff(g: Graph, m: Machine, run: Id, id: Id, now: T.Clock)
    requires Sound(g, m) && id in g && id !in g[id]
    ensures Sound(g, Next(m, run, Retry(id, now))) <==> (IsDone(m.files, id) ==> Unused(g, m, id))
  {
    var n := Next(m, run, Retry(id, now));
    ResetJudges(m, run, id, now);
    hide Sound, Judged, Unused, Next;
    if IsDone(m.files, id) ==> Unused(g, m, id) {
      JudgedSound(g, m, n, id, false);
    }
    if Sound(g, n) {
      JudgedUnsound(g, m, n, id, false);
    }
  }

  // ----- failed verifications -----

  predicate WaitsForRetry(files: Files, id: Id) {
    id in files && files[id].fm.TaskStatus() == T.Blocked
  }

  lemma BlockedTicketStays(m: Machine, run: Id, a: Action)
    requires !a.Poll? && !a.Retry? && WaitsForRetry(m.files, a.id) && Consistent(m.files[a.id].fm) && Disciplined(m, a)
    ensures WaitsForRetry(Next(m, run, a).files, a.id)
  {
  }

  lemma BlockedStays(g: Graph, m: Machine, run: Id, a: Action, id: Id)
    requires Sound(g, m) && WaitsForRetry(m.files, id) && Disciplined(m, a) && !(a.Retry? && a.id == id)
    ensures WaitsForRetry(Next(m, run, a).files, id)
    ensures id in Next(m, run, a).offers ==> id in m.offers
  {
    TicketConsistent(g, m, id);
    hide Sound, AllConsistent;
    if a.Poll? {
      assert !Ready(m.files, run, id);
    } else if a.id == id {
      BlockedTicketStays(m, run, a);
    } else {
      ActionFrame(m, run, a, id);
    }
  }

  /** A task whose verification failed is, until it is retried, never in flight or done, and offered by no further poll,
      whatever old offers of it are still about. */
  lemma {:induction false} FailedVerificationWaits(g: Graph, m: Machine, run: Id, id: Id, actions: seq<Action>)
    requires Sound(g, m) && id in m.files && m.files[id].fm.TaskStatus() == T.Blocked && DisciplinedRun(m, run, actions)
    requires forall a | a in actions :: !(a.Retry? && a.id == id)
    ensures var n := After(m, run, actions);
            && id in n.files && n.files[id].fm.TaskStatus() == T.Blocked
            && !InFlight(n.files, id) && !IsDone(n.files, id)
            && (id in n.offers ==> id in m.offers)
    decreases |actions|
  {
    hide Sound, Next, Disciplined;
    if actions != [] {
      assert actions[0] in actions;
      StepKeepsSound(g, m, run, actions[0]);
      BlockedStays(g, m, run, actions[0], id);
      FailedVerificationWaits(g, Next(m, run, actions[0]), run, id, actions[1..]);
    }
  }

  /** And that is where a failing verdict puts it; a passing one makes it done. */
  lemma VerdictIs(m: Machine, run: Id, id: Id, pass: bool, reason: string, now: T.Clock)
    requires id in m.files
    ensures var n := Next(m, run, Verify(id, pass, reason, now));
            && n.offers == m.offers && id in n.files
            && n.files[id].fm.TaskStatus() == (if pass then T.Done else T.Blocked)
            && n.files[id].fm.reason == (if pass then "" else reason)
  {
  }

  /** A poll offers exactly the tasks of the run that are pending or repair-pending with every dependency done. */
  lemma PollOffersExactly(m: Machine, run: Id, id: Id)
    ensures Next(m, run, Poll).files == m.files
    ensures id in Next(m, run, Poll).offers <==>
              id in m.offers
              || (id in m.files && m.files[id].fm.parent == run
                  && m.files[id].fm.TaskStatus() in [T.Pending, T.RepairPending]
                  && forall d | d in m.files[id].fm.deps ::
                       d in m.files && m.files[d].fm.parent == run && m.files[d].fm.TaskStatus() == T.Done)
  {
  }

  // ----- progress -----

  lemma {:induction false} FirstUnfinished(tasks: seq<Task>, files: Files, id: Id) returns (first: Id)
    requires UniqueIds(tasks) && Acyclic(GraphOf(tasks)) && Closed(tasks)
    requires id in GraphOf(tasks) && !IsDone(files, id)
    ensures first in GraphOf(tasks) && !IsDone(files, first)
    ensures forall d | d in GraphOf(tasks)[first] :: IsDone(files, d)
    decreases Depth(GraphOf(tasks), id)
  {
    first := id;
    if d :| d in GraphOf(tasks)[id] && !IsDone(files, d) {
      assert Edge(GraphOf(tasks), id, d);
      DepthStep(GraphOf(tasks), id);
      first := FirstUnfinished(tasks, files, d);
    }
  }

  /** A run never starves: if some task is not done and every such task is waiting to be dispatched, a poll
      offers at least one. */
  lemma SomethingIsReady(tasks: seq<Task>, files: Files, run: Id, unfinished: Id)
    requires UniqueIds(tasks) && Acyclic(GraphOf(tasks)) && Closed(tasks)
    requires forall id | id in GraphOf(tasks) ::
               id in files && files[id].fm.parent == run && files[id].fm.deps == GraphOf(tasks)[id]
    requires forall id | id in GraphOf(tasks) && !IsDone(files, id) :: T.IsDispatchable(files[id].fm.TaskStatus())
    requires unfinished in GraphOf(tasks) && !IsDone(files, unfinished)
    ensures exists id :: id in GraphOf(tasks) && Ready(files, run, id)
  {
    hide Acyclic, GraphOf;
    var first := FirstUnfinished(tasks, files, unfinished);
    forall d | d in files[first].fm.deps ensures IsDone(files, d) && files[d].fm.parent == run {
      assert Edge(GraphOf(tasks), first, d);
    }
    assert Ready(files, run, first);
  }
}

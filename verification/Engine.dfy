/** The engine's operations on its task store. */
module Engine {
  import opened Graphs
  import opened Tickets
  import opened Claims
  import opened TicketStore
  import RunMachine

  /** Every ticket is filed under the ID in its frontmatter. */
  ghost predicate Keyed(files: Files) {
    forall id | id in files :: files[id].fm.id == id
  }

  class Engine {
    const store: Store
    const run: Id

    constructor (store: Store, run: Id)
      ensures this.store == store && this.run == run
    {
      this.store := store;
      this.run := run;
    }

    /** `ReadTasks`: the tasks of the run, in whatever order the directory is read. */
    method ReadTasks() returns (tasks: seq<TicketTask>)
      requires Keyed(store.files)
      ensures forall t | t in tasks ::
                t.id in store.files && store.files[t.id].fm.parent == run
                  && t == FrontmatterToTask(store.files[t.id].fm)
      ensures forall id | id in store.files && store.files[id].fm.parent == run ::
                FrontmatterToTask(store.files[id].fm) in tasks
    {
      tasks := [];
      var unread := store.files.Keys;
      while unread != {}
        invariant unread <= store.files.Keys
        invariant forall t | t in tasks ::
                    t.id in store.files && store.files[t.id].fm.parent == run
                      && t == FrontmatterToTask(store.files[t.id].fm)
        invariant forall id | id in store.files && id !in unread && store.files[id].fm.parent == run ::
                    FrontmatterToTask(store.files[id].fm) in tasks
        decreases unread
      {
        var id :| id in unread;
        unread := unread - {id};
        if store.files[id].fm.parent == run {
          tasks := tasks + [FrontmatterToTask(store.files[id].fm)];
        }
      }
    }

    /** `GetPendingTasks` returns exactly the ready tasks of the run. */
    method GetPendingTasks() returns (pending: seq<TicketTask>)
      requires Keyed(store.files)
      ensures forall t | t in pending ::
                RunMachine.Ready(store.files, run, t.id) && t == FrontmatterToTask(store.files[t.id].fm)
      ensures forall id | RunMachine.Ready(store.files, run, id) :: FrontmatterToTask(store.files[id].fm) in pending
      ensures forall id :: (exists t :: t in pending && t.id == id) <==>
                && id in store.files && store.files[id].fm.parent == run
                && store.files[id].fm.TaskStatus() in [Pending, RepairPending]
                && forall d | d in store.files[id].fm.deps ::
                     d in store.files && store.files[d].fm.parent == run && store.files[d].fm.TaskStatus() == Done
    {
      hide Frontmatter.TaskStatus;
      var tasks := ReadTasks();
      var taskStates: map<Id, Status> := map[];
      for i := 0 to |tasks|
        invariant forall id | id in taskStates :: id in store.files && store.files[id].fm.parent == run
                                                  && taskStates[id] == store.files[id].fm.TaskStatus()
        invariant forall j | 0 <= j < i :: tasks[j].id in taskStates
      {
        assert tasks[i] in tasks;
        taskStates := taskStates[tasks[i].id := tasks[i].status];
      }
      pending := [];
      for i := 0 to |tasks|
        invariant forall t | t in pending :: t in tasks && RunMachine.Ready(store.files, run, t.id)
        invariant forall j | 0 <= j < i && RunMachine.Ready(store.files, run, tasks[j].id) :: tasks[j] in pending
      {
        assert tasks[i] in tasks;
        if tasks[i].status != Pending && tasks[i].status != RepairPending {
          continue;
        }
        var ready := AllDone(taskStates, tasks[i].deps);
        StatesAreDone(taskStates, tasks, tasks[i].deps);
        if ready {
          pending := pending + [tasks[i]];
        }
      }
      forall id | RunMachine.Ready(store.files, run, id) ensures FrontmatterToTask(store.files[id].fm) in pending {
        var j :| 0 <= j < |tasks| && tasks[j] == FrontmatterToTask(store.files[id].fm);
      }
      hide RunMachine.Ready;
      PendingAreReady(pending);
    }

    /** The tasks returned are those ready, with what that means written out. */
    lemma PendingAreReady(pending: seq<TicketTask>)
      requires Keyed(store.files)
      requires forall t | t in pending ::
                 RunMachine.Ready(store.files, run, t.id) && t == FrontmatterToTask(store.files[t.id].fm)
      requires forall id | RunMachine.Ready(store.files, run, id) :: FrontmatterToTask(store.files[id].fm) in pending
      ensures forall id :: (exists t :: t in pending && t.id == id) <==>
                && id in store.files && store.files[id].fm.parent == run
                && store.files[id].fm.TaskStatus() in [Pending, RepairPending]
                && forall d | d in store.files[id].fm.deps ::
                     d in store.files && store.files[d].fm.parent == run && store.files[d].fm.TaskStatus() == Done
    {
      forall id ensures RunMachine.Ready(store.files, run, id) <==>
          (id in store.files && store.files[id].fm.parent == run
           && store.files[id].fm.TaskStatus() in [Pending, RepairPending]
           && forall d | d in store.files[id].fm.deps ::
                d in store.files && store.files[d].fm.parent == run && store.files[d].fm.TaskStatus() == Done) {
        ReadyIs(id);
      }
      hide RunMachine.Ready;
    }

    lemma ReadyIs(id: Id)
      ensures RunMachine.Ready(store.files, run, id) <==>
                (id in store.files && store.files[id].fm.parent == run
                 && store.files[id].fm.TaskStatus() in [Pending, RepairPending]
                 && forall d | d in store.files[id].fm.deps ::
                      d in store.files && store.files[d].fm.parent == run && store.files[d].fm.TaskStatus() == Done)
    {
    }

    lemma StatesAreDone(taskStates: map<Id, Status>, tasks: seq<TicketTask>, deps: seq<Id>)
      requires Keyed(store.files)
      requires forall id | id in taskStates :: id in store.files && store.files[id].fm.parent == run
                                               && taskStates[id] == store.files[id].fm.TaskStatus()
      requires forall j | 0 <= j < |tasks| :: tasks[j].id in taskStates
      requires forall id | id in store.files && store.files[id].fm.parent == run ::
                 FrontmatterToTask(store.files[id].fm) in tasks
      ensures (forall d | d in deps :: d in taskStates && taskStates[d] == Done)
              <==> forall d | d in deps :: RunMachine.IsDone(store.files, d) && store.files[d].fm.parent == run
    {
      forall d | d in deps && RunMachine.IsDone(store.files, d) && store.files[d].fm.parent == run
        ensures d in taskStates
      {
        var j :| 0 <= j < |tasks| && tasks[j] == FrontmatterToTask(store.files[d].fm);
      }
    }

    static method AllDone(taskStates: map<Id, Status>, deps: seq<Id>) returns (ready: bool)
      ensures ready <==> forall d | d in deps :: d in taskStates && taskStates[d] == Done
    {
      ready := true;
      for i := 0 to |deps|
        invariant ready && forall j | 0 <= j < i :: deps[j] in taskStates && taskStates[deps[j]] == Done
      {
        if deps[i] !in taskStates || taskStates[deps[i]] != Done {
          return false;
        }
      }
    }

    method ClaimAndDispatch(id: Id, owner: string, backend: string, lease: Duration, now: Clock) returns (r: Result<()>)
      modifies store
      ensures store.files == Apply(old(store.files), Claim(id, owner, backend, lease, now))
      ensures r.Ok? <==> id in old(store.files) && ClaimRefusal(old(store.files)[id].fm, owner, now).Ok?
      ensures r.Ok? ==> store.files[id].fm.TaskStatus() == Claimed && store.files[id].fm.claimedBy == owner
    {
      r := store.ClaimTask(id, owner, backend, lease, now);
    }

    method ReleaseTask(id: Id, owner: string, status: Status, reason: string, now: Clock) returns (r: Result<()>)
      modifies store
      ensures store.files == Apply(old(store.files), Release(id, owner, status, reason, now))
      ensures r.Ok? <==> id in old(store.files) && owner != "" && old(store.files)[id].fm.claimedBy == owner
      ensures r.Ok? && !status.Other? ==> id in store.files && store.files[id].fm.TaskStatus() == status
      ensures r.Ok? ==> store.files[id].fm.claimedBy == ""
                        && store.files[id].fm.reason == if reason != "" then reason else old(store.files)[id].fm.reason
    {
      r := store.ReleaseClaim(id, owner, status, reason, now);
    }

    /** `RetryTask` sends a blocked or repair-pending task back to pending, and refuses any other. */
    method RetryTask(id: Id, now: Clock) returns (r: Result<()>)
      modifies store
      ensures r.Ok? <==> id in old(store.files) && (old(store.files)[id].fm.TaskStatus() == Blocked
                                                   || old(store.files)[id].fm.TaskStatus() == RepairPending)
      ensures r.Ok? ==> store.files == Apply(old(store.files), SetStatus(id, Pending, "", now))
      ensures r.Ok? ==> store.files[id].fm.TaskStatus() == Pending && store.files[id].fm.claimedBy == ""
      ensures r.Err? ==> store.files == old(store.files)
    {
      if id !in store.files {
        return Err(TicketNotFound);
      }
      var task := FrontmatterToTask(store.files[id].fm);
      if task.status != Blocked && task.status != RepairPending {
        return Err(NotRetryable);
      }
      r := store.UpdateStatus(id, Pending, "", now);
    }

    /** `persistVerificationOutcome`: done on a pass, blocked with a reason on a failure, and either way no claim is
        left. A ticket that is missing is written as new, with the body `newBody`. */
    method PersistVerificationOutcome(task: TicketTask, pass: bool, findings: string, newBody: string, now: Clock)
      modifies store
      ensures var judged := (t: TicketTask) => t.(status := if pass then Done else Blocked,
                                                  reason := if pass then "" else findings);
              var files := old(store.files);
              store.files == if task.id in files
                             then Apply(files, Write(judged(FrontmatterToTask(files[task.id].fm)), "", now))
                             else Apply(files, Write(judged(task).(updatedAt := now), newBody, now))
      ensures Keyed(old(store.files)) ==>
                && task.id in store.files
                && (forall x | x in store.files && x != task.id ::
                      x in old(store.files) && store.files[x] == old(store.files)[x])
                && var fm := store.files[task.id].fm;
                   && fm.TaskStatus() == (if pass then Done else Blocked)
                   && fm.reason == (if pass then "" else findings) && fm.claimedBy == ""
      ensures Keyed(old(store.files)) && task.id in old(store.files) ==>
                var verify := RunMachine.Verify(task.id, pass, findings, now);
                store.files == RunMachine.Next(RunMachine.Machine(old(store.files), {}), run, verify).files
    {
      var status, reason := Done, "";
      if !pass {
        status, reason := Blocked, findings;
      }
      if task.id !in store.files {
        var newTask := task;
        newTask := newTask.(status := status);
        newTask := newTask.(reason := reason);
        newTask := newTask.(updatedAt := now);
        store.WriteTask(newTask, newBody, now);
        return;
      }
      var existing := FrontmatterToTask(store.files[task.id].fm);
      existing := existing.(status := status);
      existing := existing.(reason := reason);
      store.WriteTask(existing, "", now);
    }

    method SweepExpiredClaims(now: Clock) returns (reclaimed: seq<Id>)
      modifies store
      ensures forall id :: id in reclaimed <==>
                id in old(store.files) && old(store.files)[id].fm.parent == run && Expired(old(store.files)[id].fm, now)
      ensures store.files.Keys == old(store.files).Keys
      ensures forall id | id in store.files ::
                store.files[id] == if id in reclaimed
                                   then Reclaimed(old(store.files)[id], now)
                                   else old(store.files)[id]
    {
      reclaimed := store.ReclaimExpired(run, now);
    }
  }
}

/** The ticket store: each method is one locked read-modify-write of ticket files. */
module TicketStore {
  import opened Graphs
  import opened Tickets
  import opened Claims

  /** A claim stays with its ticket in the four active states, and goes with any other. */
  ghost predicate ClaimKept(before: Frontmatter, after: Frontmatter, status: Status) {
    if status in [Claimed, Implementing, Verifying, UnderReview] && before.claimedBy != "" then
      && after.claimedBy == before.claimedBy && after.claimBackend == before.claimBackend
      && after.claimExpires == before.claimExpires && after.claimHeartbeat == before.claimHeartbeat
    else
      after.claimedBy == "" && after.claimBackend == "" && after.claimExpires == Blank && after.claimHeartbeat == Blank
  }

  /** Nothing but the dependencies, and what every rewrite of a ticket brings up to date. */
  ghost predicate OnlyDepsChange(f: File, g: File) {
    && g.fm.TaskStatus() == f.fm.TaskStatus() && (g != f ==> ClaimKept(f.fm, g.fm, f.fm.TaskStatus()))
    && g == f.(fm := f.fm.(deps := g.fm.deps, updatedAt := g.fm.updatedAt, status := g.fm.status,
                           extended := g.fm.extended, claimedBy := g.fm.claimedBy, claimBackend := g.fm.claimBackend,
                           claimExpires := g.fm.claimExpires, claimHeartbeat := g.fm.claimHeartbeat))
  }

  /** One link more, at the end, unless it was there. */
  ghost predicate Linked(f: File, g: File, other: Id) {
    && g.fm.links == (if other in f.fm.links then f.fm.links else f.fm.links + [other])
    && g == f.(fm := f.fm.(links := g.fm.links, updatedAt := g.fm.updatedAt))
  }

  /** One link less, wherever it was. */
  ghost predicate Unlinked(f: File, g: File, other: Id) {
    && (forall l :: l in g.fm.links <==> l in f.fm.links && l != other)
    && g == f.(fm := f.fm.(links := g.fm.links, updatedAt := g.fm.updatedAt))
  }

  lemma SetStatusIs(f: File, status: Status, reason: string, now: Clock)
    ensures var g := SetStatusFile(f, status, reason, now);
            && (!status.Other? ==> g.fm.TaskStatus() == status) && (status.Other? ==> g.fm.TaskStatus() == Pending)
            && g == f.(fm := f.fm.(reason := reason, updatedAt := FormatTime(now), status := g.fm.status,
                                   extended := g.fm.extended, claimedBy := g.fm.claimedBy,
                                   claimBackend := g.fm.claimBackend, claimExpires := g.fm.claimExpires,
                                   claimHeartbeat := g.fm.claimHeartbeat))
            && ClaimKept(f.fm, g.fm, status)
  {
  }

  class Store {
    var files: Files

    constructor ()
      ensures files == map[]
    {
      files := map[];
    }

    method ClaimTask(id: Id, owner: string, backend: string, lease: Duration, now: Clock) returns (r: Result<()>)
      modifies this
      ensures files == Apply(old(files), Claim(id, owner, backend, lease, now))
      ensures r == if id in old(files) then ClaimRefusal(old(files)[id].fm, owner, now) else Err(TicketNotFound)
      ensures files.Keys == old(files).Keys && forall x | x in files && x != id :: files[x] == old(files)[x]
      ensures r.Err? ==> files == old(files)
      ensures r.Ok? ==>
                var f, g := old(files)[id], files[id];
                && g.fm.TaskStatus() == Claimed && g.fm.status == InProgress
                && g == f.(fm := f.fm.(claimedBy := owner, claimBackend := backend,
                                       claimExpires := FormatTime(now + lease), claimHeartbeat := FormatTime(now),
                                       updatedAt := FormatTime(now),
                                       status := g.fm.status, extended := g.fm.extended))
    {
      if id !in files {
        return Err(TicketNotFound);
      }
      var fm, body := files[id].fm, files[id].body;
      r := ValidateClaimEligibility(fm, owner, now);
      if r.Err? {
        return;
      }
      SetClaim(id, fm, body, owner, backend, lease, now);
    }

    /** `validateClaimEligibility`. */
    static method ValidateClaimEligibility(fm: Frontmatter, owner: string, now: Clock) returns (r: Result<()>)
      ensures r == ClaimRefusal(fm, owner, now)
      ensures r == Err(AlreadyClaimed) <==> fm.claimedBy != owner && fm.claimedBy != "" && LeaseRuns(fm, now)
      ensures r == Err(NotClaimable) <==>
                fm.claimedBy == "" && owner != "" && fm.TaskStatus() != Pending && fm.TaskStatus() != RepairPending
      ensures r.Ok? <==> fm.claimedBy == owner || (fm.claimedBy != "" && !LeaseRuns(fm, now))
                         || (fm.claimedBy == "" && (fm.TaskStatus() == Pending || fm.TaskStatus() == RepairPending))
    {
      if fm.claimedBy == owner {
        return Ok(());
      }
      if fm.claimedBy != "" {
        var expires := ParseTime(fm.claimExpires);
        if expires != 0 && now < expires {
          return Err(AlreadyClaimed);
        }
        return Ok(());
      }
      if fm.TaskStatus() != Pending && fm.TaskStatus() != RepairPending {
        return Err(NotClaimable);
      }
      return Ok(());
    }

    method SetClaim(id: Id, fm0: Frontmatter, body: string, owner: string, backend: string, lease: Duration, now: Clock)
      modifies this
      ensures files == old(files)[id := File(WithClaim(fm0, owner, backend, lease, now), body)]
    {
      var fm := fm0;
      fm := fm.(claimedBy := owner);
      fm := fm.(claimBackend := backend);
      fm := fm.(claimExpires := FormatTime(now + lease));
      fm := fm.(claimHeartbeat := FormatTime(now));
      fm := fm.(extended := Claimed, status := StatusToTicket(Claimed));
      fm := fm.(updatedAt := FormatTime(now));
      files := files[id := File(fm, body)];
    }

    method RenewClaim(id: Id, owner: string, lease: Duration, now: Clock) returns (r: Result<()>)
      modifies this
      ensures files == Apply(old(files), Renew(id, owner, lease, now))
      ensures r == if id !in old(files) then Err(TicketNotFound)
                   else if old(files)[id].fm.claimedBy == "" then Err(NotClaimed)
                   else if old(files)[id].fm.claimedBy != owner then Err(NotClaimOwner)
                   else Ok(())
      ensures files.Keys == old(files).Keys && forall x | x in files && x != id :: files[x] == old(files)[x]
      ensures r.Err? ==> files == old(files)
      ensures r.Ok? ==>
                var f := old(files)[id];
                files[id] == f.(fm := f.fm.(claimExpires := FormatTime(now + lease), claimHeartbeat := FormatTime(now),
                                            updatedAt := FormatTime(now)))
    {
      if id !in files {
        return Err(TicketNotFound);
      }
      var fm := files[id].fm;
      if fm.claimedBy == "" {
        return Err(NotClaimed);
      }
      if fm.claimedBy != owner {
        return Err(NotClaimOwner);
      }
      fm := fm.(claimExpires := FormatTime(now + lease));
      fm := fm.(claimHeartbeat := FormatTime(now));
      fm := fm.(updatedAt := FormatTime(now));
      files := files[id := files[id].(fm := fm)];
      return Ok(());
    }

    method ReleaseClaim(id: Id, owner: string, status: Status, reason: string, now: Clock) returns (r: Result<()>)
      modifies this
      ensures files == Apply(old(files), Release(id, owner, status, reason, now))
      ensures r == if id !in old(files) then Err(TicketNotFound)
                   else if old(files)[id].fm.claimedBy == "" then Err(NotClaimed)
                   else if old(files)[id].fm.claimedBy != owner then Err(NotClaimOwner)
                   else Ok(())
      ensures files.Keys == old(files).Keys && forall x | x in files && x != id :: files[x] == old(files)[x]
      ensures r.Err? ==> files == old(files)
      ensures r.Ok? ==>
                var f, g := old(files)[id], files[id];
                && (!status.Other? ==> g.fm.TaskStatus() == status) && (status.Other? ==> g.fm.TaskStatus() == Pending)
                && g == f.(fm := f.fm.(claimedBy := "", claimBackend := "", claimExpires := Blank,
                                       claimHeartbeat := Blank, reason := if reason != "" then reason else f.fm.reason,
                                       updatedAt := FormatTime(now), status := g.fm.status, extended := g.fm.extended))
    {
      if id !in files {
        return Err(TicketNotFound);
      }
      var fm := files[id].fm;
      if fm.claimedBy == "" {
        return Err(NotClaimed);
      }
      if fm.claimedBy != owner {
        return Err(NotClaimOwner);
      }
      fm := fm.(claimedBy := "", claimBackend := "", claimExpires := Blank, claimHeartbeat := Blank);
      fm := fm.(extended := status, status := StatusToTicket(status));
      if reason != "" {
        fm := fm.(reason := reason);
      }
      fm := fm.(updatedAt := FormatTime(now));
      files := files[id := files[id].(fm := fm)];
      return Ok(());
    }

    /** `reclaimOne`. */
    method ReclaimOne(id: Id, scanned: Clock) returns (ok: bool)
      modifies this
      ensures files == Apply(old(files), Reclaim(id, scanned))
      ensures ok == (id in old(files) && Expired(old(files)[id].fm, scanned))
      ensures files.Keys == old(files).Keys && forall x | x in files && x != id :: files[x] == old(files)[x]
      ensures !ok ==> files == old(files)
      ensures ok ==>
                var f, g := old(files)[id], files[id];
                && g.fm.TaskStatus() == Pending
                && g == f.(fm := f.fm.(claimedBy := "", claimBackend := "", claimExpires := Blank,
                                       claimHeartbeat := Blank, reason := "claim expired",
                                       updatedAt := FormatTime(scanned),
                                       status := g.fm.status, extended := g.fm.extended))
    {
      if id !in files {
        return false;
      }
      var fm := files[id].fm;
      var expires := ParseTime(fm.claimExpires);
      if fm.claimedBy == "" || expires == 0 || !(expires < scanned) {
        return false;
      }
      fm := fm.(claimedBy := "", claimBackend := "", claimExpires := Blank, claimHeartbeat := Blank);
      fm := fm.(extended := Pending, status := StatusToTicket(Pending));
      fm := fm.(reason := "claim expired", updatedAt := FormatTime(scanned));
      files := files[id := files[id].(fm := fm)];
      return true;
    }

    /** The unlocked scan of `ReclaimExpired`, in whatever order the directory is read. */
    method ExpiredClaims(run: Id, scanned: Clock) returns (ids: seq<Id>)
      ensures forall id :: id in ids <==> id in files && files[id].fm.parent == run && Expired(files[id].fm, scanned)
      ensures forall i, j | 0 <= i < j < |ids| :: ids[i] != ids[j]
    {
      ids := [];
      var unread := files.Keys;
      while unread != {}
        invariant unread <= files.Keys
        invariant forall id :: id in ids <==>
                    id in files && id !in unread && files[id].fm.parent == run && Expired(files[id].fm, scanned)
        invariant forall i, j | 0 <= i < j < |ids| :: ids[i] != ids[j]
        decreases unread
      {
        var id :| id in unread;
        unread := unread - {id};
        var fm := files[id].fm;
        if fm.parent == run && fm.claimedBy != "" {
          var expires := ParseTime(fm.claimExpires);
          if expires != 0 && expires < scanned {
            ids := ids + [id];
          }
        }
      }
    }

    /** `ReclaimExpired` with nothing in between scan and re-check: every expired claim of the run, and no
        other ticket, goes back to pending. */
    method ReclaimExpired(run: Id, now: Clock) returns (reclaimed: seq<Id>)
      modifies this
      ensures forall id :: id in reclaimed <==>
                id in old(files) && old(files)[id].fm.parent == run && Expired(old(files)[id].fm, now)
      ensures files.Keys == old(files).Keys
      ensures forall id | id in files ::
                files[id] == if id in reclaimed then Reclaimed(old(files)[id], now)
                             else old(files)[id]
    {
      var expired := ExpiredClaims(run, now);
      reclaimed := [];
      for i := 0 to |expired|
        invariant reclaimed == expired[..i]
        invariant files.Keys == old(files).Keys
        invariant forall id | id in files ::
                    files[id] == if id in reclaimed then Reclaimed(old(files)[id], now)
                                 else old(files)[id]
      {
        assert expired[i] in expired && expired[i] !in expired[..i];
        var ok := ReclaimOne(expired[i], now);
        if ok {
          reclaimed := reclaimed + [expired[i]];
        }
      }
    }

    method UpdateStatus(id: Id, status: Status, reason: string, now: Clock) returns (r: Result<()>)
      modifies this
      ensures files == Apply(old(files), SetStatus(id, status, reason, now))
      ensures r.Ok? <==> id in old(files)
      ensures files.Keys == old(files).Keys && forall x | x in files && x != id :: files[x] == old(files)[x]
      ensures r.Err? ==> files == old(files)
      ensures r.Ok? ==>
                var f, g := old(files)[id], files[id];
                && (!status.Other? ==> g.fm.TaskStatus() == status) && (status.Other? ==> g.fm.TaskStatus() == Pending)
                && g == f.(fm := f.fm.(reason := reason, updatedAt := FormatTime(now), status := g.fm.status,
                                       extended := g.fm.extended, claimedBy := g.fm.claimedBy,
                                       claimBackend := g.fm.claimBackend, claimExpires := g.fm.claimExpires,
                                       claimHeartbeat := g.fm.claimHeartbeat))
                && ClaimKept(f.fm, g.fm, status)
    {
      if id !in files {
        return Err(TicketNotFound);
      }
      SetStatusIs(files[id], status, reason, now);
      hide UpdateFrontmatter;
      var task := FrontmatterToTask(files[id].fm);
      task := task.(status := status);
      task := task.(reason := reason);
      task := task.(updatedAt := now);
      files := files[id := files[id].(fm := UpdateFrontmatter(files[id].fm, task))];
      return Ok(());
    }

    method WriteTask(task: TicketTask, newBody: string, now: Clock)
      modifies this
      ensures files == Apply(old(files), Write(task, newBody, now))
      ensures files.Keys == old(files).Keys + {task.id}
      ensures forall x | x in old(files) && x != task.id :: files[x] == old(files)[x]
      ensures var g := files[task.id];
              && g.fm.id == task.id && g.fm.deps == task.deps && g.fm.parent == task.parent
              && g.fm.payload == task.payload && g.fm.reason == task.reason
              && (!task.status.Other? ==> g.fm.TaskStatus() == task.status)
              && (task.status.Other? ==> g.fm.TaskStatus() == Pending)
      ensures task.id in old(files) ==>
                var f, g := old(files)[task.id], files[task.id];
                && g.body == f.body && g.fm.links == f.fm.links && g.fm.extra == f.fm.extra
                && g.fm.updatedAt == FormatTime(now) && ClaimKept(f.fm, g.fm, task.status)
      ensures task.id !in old(files) ==>
                var g := files[task.id];
                && g.body == newBody && g.fm.links == [] && g.fm.extra == ""
                && g.fm.claimedBy == "" && g.fm.claimBackend == ""
                && g.fm.claimExpires == Blank && g.fm.claimHeartbeat == Blank
    {
      if task.id !in files {
        files := files[task.id := File(TaskToFrontmatter(task), newBody)];
      } else {
        var existing := files[task.id];
        files := files[task.id := existing.(fm := UpdateFrontmatter(existing.fm, task.(updatedAt := now)))];
      }
    }

    method AddDependency(id: Id, dep: Id, now: Clock) returns (r: Result<()>)
      modifies this
      ensures files == Apply(old(files), AddDep(id, dep, now))
      ensures r.Ok? <==> id in old(files) && dep in old(files)
      ensures files.Keys == old(files).Keys && forall x | x in files && x != id :: files[x] == old(files)[x]
      ensures r.Err? ==> files == old(files)
      ensures r.Ok? ==>
                var f, g := old(files)[id], files[id];
                && g.fm.deps == (if dep in f.fm.deps then f.fm.deps else f.fm.deps + [dep])
                && OnlyDepsChange(f, g) && (dep in f.fm.deps ==> g == f)
    {
      if id !in files || dep !in files {
        return Err(TicketNotFound);
      }
      var task := FrontmatterToTask(files[id].fm);
      for i := 0 to |task.deps|
        invariant dep !in task.deps[..i] && files == old(files)
      {
        if task.deps[i] == dep {
          return Ok(());
        }
      }
      task := task.(deps := task.deps + [dep], updatedAt := now);
      files := files[id := files[id].(fm := UpdateFrontmatter(files[id].fm, task))];
      return Ok(());
    }

    method RemoveDependency(id: Id, dep: Id, now: Clock) returns (r: Result<()>)
      modifies this
      ensures files == Apply(old(files), RemoveDep(id, dep, now))
      ensures r.Ok? <==> id in old(files)
      ensures files.Keys == old(files).Keys && forall x | x in files && x != id :: files[x] == old(files)[x]
      ensures r.Err? ==> files == old(files)
      ensures r.Ok? ==>
                var f, g := old(files)[id], files[id];
                && (forall d :: d in g.fm.deps <==> d in f.fm.deps && d != dep) && OnlyDepsChange(f, g)
                && g.fm.deps == Without(f.fm.deps, dep)
    {
      if id !in files {
        return Err(TicketNotFound);
      }
      var task := FrontmatterToTask(files[id].fm);
      var filtered: seq<Id> := [];
      for i := 0 to |task.deps|
        invariant filtered == Without(task.deps[..i], dep) && files == old(files)
      {
        assert task.deps[..i + 1][..i] == task.deps[..i];
        if task.deps[i] != dep {
          filtered := filtered + [task.deps[i]];
        }
      }
      assert task.deps[..|task.deps|] == task.deps;
      WithoutMembers(task.deps, dep);
      task := task.(deps := filtered, updatedAt := now);
      files := files[id := files[id].(fm := UpdateFrontmatter(files[id].fm, task))];
      return Ok(());
    }

    method AddNote(id: Id, note: string) returns (r: Result<()>)
      modifies this
      ensures files == Apply(old(files), Note(id, note))
      ensures r.Ok? <==> id in old(files)
      ensures files.Keys == old(files).Keys && forall x | x in files && x != id :: files[x] == old(files)[x]
      ensures r.Err? ==> files == old(files)
      ensures r.Ok? ==> var f := old(files)[id]; files[id] == f.(body := f.body + note)
    {
      if id !in files {
        return Err(TicketNotFound);
      }
      files := files[id := files[id].(body := files[id].body + note)];
      return Ok(());
    }

    /** A link is written on both sides, or on neither. */
    method AddLink(id: Id, other: Id, now: Clock) returns (r: Result<()>)
      modifies this
      ensures files == Apply(old(files), Link(id, other, now))
      ensures r.Ok? <==> id in old(files) && other in old(files)
      ensures files.Keys == old(files).Keys && (r.Err? ==> files == old(files))
      ensures forall x | x in files && x != id && x != other :: files[x] == old(files)[x]
      ensures r.Ok? ==> Linked(old(files)[id], files[id], other) && Linked(old(files)[other], files[other], id)
    {
      if id !in files || other !in files {
        return Err(TicketNotFound);
      }
      var first := LinkFile(files[id], other, now);
      if id == other {
        files := files[id := first];
        return Ok(());
      }
      var second := LinkFile(files[other], id, now);
      files := files[id := first][other := second];
      return Ok(());
    }

    /** After an unlink neither side names the other. */
    method RemoveLink(id: Id, other: Id, now: Clock) returns (r: Result<()>)
      modifies this
      ensures files == Apply(old(files), Unlink(id, other, now))
      ensures r.Ok? <==> id in old(files) && other in old(files)
      ensures files.Keys == old(files).Keys && (r.Err? ==> files == old(files))
      ensures forall x | x in files && x != id && x != other :: files[x] == old(files)[x]
      ensures r.Ok? ==> Unlinked(old(files)[id], files[id], other) && Unlinked(old(files)[other], files[other], id)
    {
      if id !in files || other !in files {
        return Err(TicketNotFound);
      }
      WithoutMembers(files[id].fm.links, other);
      WithoutMembers(files[other].fm.links, id);
      var first := UnlinkFile(files[id], other, now);
      if id == other {
        files := files[id := first];
        return Ok(());
      }
      var second := UnlinkFile(files[other], id, now);
      files := files[id := first][other := second];
      return Ok(());
    }
  }
}

/** The claim lease protocol: every interleaving of store operations on a map of tickets. */
module Claims {
  import opened Graphs
  import opened Tickets

  type Files = map<Id, File>

  /** One locked section of the store. `Reclaim` is the sweep's second half: the ticket was found expired
      in a scan at the earlier time `scanned`. */
  datatype Op =
    | Claim(id: Id, owner: string, backend: string, lease: Duration, now: Clock)
    | Renew(id: Id, owner: string, lease: Duration, now: Clock)
    | Release(id: Id, owner: string, status: Status, reason: string, now: Clock)
    | Reclaim(id: Id, scanned: Clock)
    | SetStatus(id: Id, status: Status, reason: string, now: Clock)
    | Write(task: TicketTask, newBody: string, now: Clock)
    | AddDep(id: Id, dep: Id, now: Clock)
    | RemoveDep(id: Id, dep: Id, now: Clock)
    | Note(id: Id, note: string)
    | Link(id: Id, other: Id, now: Clock)
    | Unlink(id: Id, other: Id, now: Clock)
  {
    /** The ticket whose claim fields and status the operation may change. */
    function Target(): Id {
      if Write? then task.id else id
    }
  }

  function Put(files: Files, id: Id, r: Result<File>): Files {
    match r
    case Err(_) => files
    case Ok(f) => files[id := f]
  }

  /** What a locked section leaves behind; an error leaves everything as it was. */
  function Apply(files: Files, op: Op): Files {
    match op
    case Claim(id, owner, backend, lease, now) =>
      if id in files then Put(files, id, ClaimFile(files[id], owner, backend, lease, now)) else files
    case Renew(id, owner, lease, now) =>
      if id in files then Put(files, id, RenewFile(files[id], owner, lease, now)) else files
    case Release(id, owner, status, reason, now) =>
      if id in files then Put(files, id, ReleaseFile(files[id], owner, status, reason, now)) else files
    case Reclaim(id, scanned) =>
      if id in files then Put(files, id, ReclaimFile(files[id], scanned)) else files
    case SetStatus(id, status, reason, now) =>
      if id in files then files[id := SetStatusFile(files[id], status, reason, now)] else files
    case Write(task, newBody, now) =>
      if task.id in files then files[task.id := WriteFile(files[task.id], task, now)]
      else files[task.id := File(TaskToFrontmatter(task), newBody)]
    case AddDep(id, dep, now) =>
      if id in files && dep in files then files[id := AddDepFile(files[id], dep, now)] else files
    case RemoveDep(id, dep, now) =>
      if id in files then files[id := RemoveDepFile(files[id], dep, now)] else files
    case Note(id, note) =>
      if id in files then files[id := NoteFile(files[id], note)] else files
    case Link(id, other, now) =>
      if id !in files || other !in files then files
      else if id == other then files[id := LinkFile(files[id], other, now)]
      else files[id := LinkFile(files[id], other, now)][other := LinkFile(files[other], id, now)]
    case Unlink(id, other, now) =>
      if id !in files || other !in files then files
      else if id == other then files[id := UnlinkFile(files[id], other, now)]
      else files[id := UnlinkFile(files[id], other, now)][other := UnlinkFile(files[other], id, now)]
  }

  function ApplyAll(files: Files, ops: seq<Op>): Files
    decreases |ops|
  {
    if ops == [] then files else ApplyAll(Apply(files, ops[0]), ops[1..])
  }

  // ----- consistency of every reachable store -----

  /** The four claim fields are all set or all blank, a claimed ticket is in an active state, and the tk
      status is the one the extended status maps to. */
  ghost predicate Consistent(fm: Frontmatter) {
    && (fm.claimedBy == "" <==> fm.claimBackend == "")
    && (fm.claimedBy == "" <==> fm.claimExpires == Blank)
    && (fm.claimedBy == "" <==> fm.claimHeartbeat == Blank)
    && (fm.claimedBy != "" ==> IsActiveStatus(fm.TaskStatus()))
    && fm.status == StatusToTicket(fm.extended)
  }

  ghost predicate AllConsistent(files: Files) {
    forall id | id in files :: Consistent(files[id].fm)
  }

  /** Claims name an owner and a backend. */
  predicate Identified(op: Op) {
    op.Claim? ==> op.owner != "" && op.backend != ""
  }

  lemma UpdateConsistent(fm: Frontmatter, task: TicketTask)
    requires Consistent(fm)
    ensures Consistent(UpdateFrontmatter(fm, task))
  {
  }

  /** The operations that decide about one file, and may refuse. */
  lemma DecisionConsistent(f: File, op: Op)
    requires Consistent(f.fm) && Identified(op)
    ensures op.Claim? ==>
              var r := ClaimFile(f, op.owner, op.backend, op.lease, op.now); r.Ok? ==> Consistent(r.value.fm)
    ensures op.Renew? ==> var r := RenewFile(f, op.owner, op.lease, op.now); r.Ok? ==> Consistent(r.value.fm)
    ensures op.Release? ==>
              var r := ReleaseFile(f, op.owner, op.status, op.reason, op.now); r.Ok? ==> Consistent(r.value.fm)
    ensures op.Reclaim? ==> var r := ReclaimFile(f, op.scanned); r.Ok? ==> Consistent(r.value.fm)
  {
  }

  lemma ApplyKeepsConsistent(files: Files, op: Op)
    requires AllConsistent(files) && Identified(op)
    ensures AllConsistent(Apply(files, op))
  {
    hide UpdateFrontmatter, TaskToFrontmatter, ClaimFile, RenewFile, ReleaseFile, ReclaimFile, FrontmatterToTask;
    hide Consistent;
    if op.Target() in files {
      var f := files[op.Target()];
      DecisionConsistent(f, op);
      forall task ensures Consistent(UpdateFrontmatter(f.fm, task)) {
        UpdateConsistent(f.fm, task);
      }
    }
    if op.Write? {
      NewTicketConsistent(op.task);
    }
    if (op.Link? || op.Unlink?) && op.id in files && op.other in files {
      LinkConsistent(files[op.id], op.other, op.now);
      LinkConsistent(files[op.other], op.id, op.now);
    }
  }

  lemma NewTicketConsistent(task: TicketTask)
    ensures Consistent(TaskToFrontmatter(task))
  {
  }

  lemma LinkConsistent(f: File, other: Id, now: int)
    requires Consistent(f.fm)
    ensures Consistent(LinkFile(f, other, now).fm) && Consistent(UnlinkFile(f, other, now).fm)
  {
  }

  /** Consistency of every ticket holds in every reachable store. */
  lemma {:induction false} RunKeepsConsistent(files: Files, ops: seq<Op>)
    requires AllConsistent(files)
    requires forall op | op in ops :: Identified(op)
    ensures AllConsistent(ApplyAll(files, ops))
    decreases |ops|
  {
    if ops != [] {
      assert ops[0] in ops;
      ApplyKeepsConsistent(files, ops[0]);
      RunKeepsConsistent(Apply(files, ops[0]), ops[1..]);
    }
  }

  /** A claim that succeeds keeps its ticket consistent exactly when it names an owner and a backend. */
  lemma ClaimConsistentIffIdentified(f: File, owner: string, backend: string, lease: Duration, now: Clock)
    requires Consistent(f.fm) && ClaimFile(f, owner, backend, lease, now).Ok?
    ensures Consistent(ClaimFile(f, owner, backend, lease, now).value.fm) <==> owner != "" && backend != ""
  {
  }

  /** A nameless owner is let in at an unclaimed ticket in any state, done included; a named one only at
      a dispatchable ticket. */
  lemma UnclaimedAdmits(fm: Frontmatter, owner: string, now: Clock)
    requires fm.claimedBy == ""
    ensures ClaimRefusal(fm, owner, now).Ok? <==> owner == "" || IsDispatchable(fm.TaskStatus())
  {
  }

  /** Links are mutual and never dangle. */
  ghost predicate LinksMutual(files: Files) {
    forall a, b {:trigger b in files[a].fm.links} | a in files && b in files[a].fm.links ::
      b in files && a in files[b].fm.links
  }

  lemma ApplyKeepsLinks(files: Files, op: Op)
    requires LinksMutual(files)
    ensures LinksMutual(Apply(files, op))
  {
    if op.Link? {
      LinkKeepsLinks(files, op);
    } else if op.Unlink? {
      UnlinkKeepsLinks(files, op);
    } else {
      hide Apply;
      OthersKeepLists(files, op);
    }
  }

  lemma LinkKeepsLinks(files: Files, op: Op)
    requires LinksMutual(files) && op.Link?
    ensures LinksMutual(Apply(files, op))
  {
  }

  lemma UnlinkKeepsLinks(files: Files, op: Op)
    requires LinksMutual(files) && op.Unlink?
    ensures LinksMutual(Apply(files, op))
  {
    if op.id in files && op.other in files {
      WithoutMembers(files[op.id].fm.links, op.other);
      WithoutMembers(files[op.other].fm.links, op.id);
    }
    hide Without;
  }

  /** Only linking and unlinking change a list of links; a new ticket has none. */
  lemma OthersKeepLists(files: Files, op: Op)
    requires !op.Link? && !op.Unlink?
    ensures forall id | id in files :: id in Apply(files, op) && Apply(files, op)[id].fm.links == files[id].fm.links
    ensures forall id | id in Apply(files, op) && id !in files :: Apply(files, op)[id].fm.links == []
  {
    hide UpdateFrontmatter, TaskToFrontmatter, ClaimFile, RenewFile, ReleaseFile, ReclaimFile, FrontmatterToTask;
    if op.Target() in files {
      var f := files[op.Target()];
      DecisionKeepsLinks(f, op);
      forall task ensures UpdateFrontmatter(f.fm, task).links == f.fm.links {
        UpdateKeepsLinks(f.fm, task);
      }
    } else if op.Write? {
      UpdateKeepsLinks(TaskToFrontmatter(op.task), op.task);
    }
  }

  lemma UpdateKeepsLinks(fm: Frontmatter, task: TicketTask)
    ensures UpdateFrontmatter(fm, task).links == fm.links && TaskToFrontmatter(task).links == []
  {
  }

  lemma DecisionKeepsLinks(f: File, op: Op)
    ensures op.Claim? ==>
              var r := ClaimFile(f, op.owner, op.backend, op.lease, op.now); r.Ok? ==> r.value.fm.links == f.fm.links
    ensures op.Renew? ==> var r := RenewFile(f, op.owner, op.lease, op.now); r.Ok? ==> r.value.fm.links == f.fm.links
    ensures op.Release? ==>
              var r := ReleaseFile(f, op.owner, op.status, op.reason, op.now); r.Ok? ==> r.value.fm.links == f.fm.links
    ensures op.Reclaim? ==> var r := ReclaimFile(f, op.scanned); r.Ok? ==> r.value.fm.links == f.fm.links
  {
    hide ClaimRefusal, HolderRefusal, Expired;
  }

  lemma {:induction false} RunKeepsLinks(files: Files, ops: seq<Op>)
    requires LinksMutual(files)
    ensures LinksMutual(ApplyAll(files, ops))
    decreases |ops|
  {
    if ops != [] {
      ApplyKeepsLinks(files, ops[0]);
      RunKeepsLinks(Apply(files, ops[0]), ops[1..]);
    }
  }

  // ----- exclusive leases -----

  /** The instant a lease of length `lease` taken at `now` ends: rounded down to the second. */
  function Deadline(lease: Duration, now: Clock): int {
    (now + lease) / SECOND * SECOND
  }

  /** The exclusive window is longer than the lease less one second, and no longer than the lease. */
  lemma DeadlineBounds(lease: Duration, now: Clock)
    ensures now + lease - SECOND < Deadline(lease, now) <= now + lease
  {
  }

  /** `owner` holds `id`, and the recorded end of the lease reads back as `deadline`. */
  predicate Holds(files: Files, id: Id, owner: string, deadline: int) {
    id in files && owner != "" && files[id].fm.claimedBy == owner
    && deadline > 0 && ParseTime(files[id].fm.claimExpires) == deadline
  }

  /** The lease end has a four-digit year. */
  predicate Writable(lease: Duration, now: Clock) {
    now + lease < YEAR_10000 * SECOND
  }

  /** Operations that can happen while `owner`'s latest lease on `id` runs: anything on other tickets; and on
      this one, others' attempts before the deadline, sweeps whose scan was no later than the deadline, and
      bookkeeping that leaves the ticket in an active state. The owner neither releases, claims nor renews. */
  predicate DuringLease(op: Op, id: Id, owner: string, deadline: int) {
    op.Target() == id ==>
      match op
      case Claim(_, o, _, _, now) => o != owner && now < deadline
      case Renew(_, o, _, _) => o != owner
      case Release(_, o, _, _, _) => o != owner
      case Reclaim(_, scanned) => scanned <= deadline
      case SetStatus(_, status, _, _) => IsActiveStatus(status)
      case Write(task, _, _) => IsActiveStatus(task.status)
      case _ => true
  }

  lemma StepKeepsLease(files: Files, op: Op, id: Id, owner: string, deadline: int)
    requires AllConsistent(files) && Holds(files, id, owner, deadline) && DuringLease(op, id, owner, deadline)
    ensures Holds(Apply(files, op), id, owner, deadline)
  {
  }

  /** A successful claim or renewal gives the owner the lease. */
  lemma GrantHolds(files: Files, op: Op)
    requires op.Claim? || op.Renew?
    requires op.owner != "" && op.id in files && Writable(op.lease, op.now) && Deadline(op.lease, op.now) > 0
    requires op.Claim? ==> ClaimFile(files[op.id], op.owner, op.backend, op.lease, op.now).Ok?
    requires op.Renew? ==> RenewFile(files[op.id], op.owner, op.lease, op.now).Ok?
    ensures Holds(Apply(files, op), op.id, op.owner, Deadline(op.lease, op.now))
  {
  }

  lemma {:induction false} LeaseSurvives(files: Files, ops: seq<Op>, id: Id, owner: string, deadline: int)
    requires AllConsistent(files) && Holds(files, id, owner, deadline)
    requires forall op | op in ops :: Identified(op) && DuringLease(op, id, owner, deadline)
    ensures Holds(ApplyAll(files, ops), id, owner, deadline)
    decreases |ops|
  {
    if ops != [] {
      assert ops[0] in ops;
      StepKeepsLease(files, ops[0], id, owner, deadline);
      ApplyKeepsConsistent(files, ops[0]);
      LeaseSurvives(Apply(files, ops[0]), ops[1..], id, owner, deadline);
    }
  }

  /** Mutual exclusion: after any interleaving during the lease, no other owner's claim succeeds before the
      deadline and no sweep that scanned by then clears the ticket; from the deadline on, the first
      other owner gets it, and a sweep needs a scan strictly after the deadline. */
  lemma ExclusiveLease(files: Files, grant: Op, ops: seq<Op>, other: string, backend: string, lease: Duration,
                       at: Clock)
    requires AllConsistent(files)
    requires (grant.Claim? || grant.Renew?) && Identified(grant) && grant.owner != "" && grant.id in files
    requires grant.Claim? ==> ClaimFile(files[grant.id], grant.owner, grant.backend, grant.lease, grant.now).Ok?
    requires grant.Renew? ==> RenewFile(files[grant.id], grant.owner, grant.lease, grant.now).Ok?
    requires Writable(grant.lease, grant.now) && Deadline(grant.lease, grant.now) > 0
    requires forall op | op in ops ::
               Identified(op) && DuringLease(op, grant.id, grant.owner, Deadline(grant.lease, grant.now))
    requires other != "" && other != grant.owner
    ensures var after := ApplyAll(Apply(files, grant), ops);
            && grant.id in after
            && (ClaimFile(after[grant.id], other, backend, lease, at).Ok? <==> at >= Deadline(grant.lease, grant.now))
            && (ReclaimFile(after[grant.id], at).Ok? <==> at > Deadline(grant.lease, grant.now))
  {
    var deadline := Deadline(grant.lease, grant.now);
    GrantHolds(files, grant);
    ApplyKeepsConsistent(files, grant);
    LeaseSurvives(Apply(files, grant), ops, grant.id, grant.owner, deadline);
  }

  /** Another owner can take a ticket just claimed exactly when its lease has ended, or ends in the year 10000 or
      later and cannot be written down. Durations being under 293 years, that takes a clock past the year 9700. */
  lemma UnwritableLeaseIsOpen(f: File, owner: string, backend: string, lease: Duration, now: Clock,
                              other: string, backend': string, lease': Duration, at: Clock)
    requires ClaimFile(f, owner, backend, lease, now).Ok? && owner != "" && other != owner
    ensures ClaimFile(ClaimFile(f, owner, backend, lease, now).value, other, backend', lease', at).Ok?
            <==> !Writable(lease, now) || Deadline(lease, now) <= at
  {
  }

  // ----- the sweep -----

  /** The locked re-checks of the tickets a scan at `scanned` found expired. */
  function Sweep(ids: seq<Id>, scanned: Clock): seq<Op> {
    seq(|ids|, i requires 0 <= i < |ids| => Reclaim(ids[i], scanned))
  }

  /** Whatever the other owners do between the scan and the locked re-checks, a sweep clears no lease that
      has been renewed to or past its scan time. */
  lemma SweepSparesRenewed(files: Files, ids: seq<Id>, scanned: Clock, id: Id, owner: string, deadline: int)
    requires AllConsistent(files) && Holds(files, id, owner, deadline) && scanned <= deadline
    ensures Holds(ApplyAll(files, Sweep(ids, scanned)), id, owner, deadline)
  {
    LeaseSurvives(files, Sweep(ids, scanned), id, owner, deadline);
  }
}

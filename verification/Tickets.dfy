/** Ticket files: status mapping, timestamps, and the frontmatter each store operation writes. */
module Tickets {
  import opened Graphs

  // ----- status mapping -----

  /** The nine task states; `Other` is any other string, `Other("")` a blank field. */
  datatype Status =
    | Pending | Claimed | Implementing | Verifying | UnderReview | RepairPending | Blocked | Done | Failed
    | Other(name: string)

  /** tk's own three states; `Foreign` is any other string in the file. */
  datatype TkStatus = Open | InProgress | Closed | Foreign(name: string)

  function StatusToTicket(s: Status): TkStatus {
    match s
    case Claimed | Implementing | Verifying | UnderReview => InProgress
    case Done | Failed => Closed
    case _ => Open
  }

  function StatusFromTicket(tk: TkStatus, extended: Status): Status {
    if !extended.Other? then extended
    else
      match tk
      case InProgress => Claimed
      case Closed => Done
      case _ => Pending
  }

  /** The two status columns of a ticket: what tk is shown for each state, and what a ticket of tk's own is read as. */
  lemma StatusColumns(s: Status, tk: TkStatus)
    ensures StatusToTicket(s) == InProgress <==> s in [Claimed, Implementing, Verifying, UnderReview]
    ensures StatusToTicket(s) == Closed <==> s in [Done, Failed]
    ensures StatusToTicket(s) == Open <==> s in [Pending, RepairPending, Blocked] || s.Other?
    ensures !s.Other? ==> StatusFromTicket(tk, s) == s
    ensures s.Other? ==> StatusFromTicket(InProgress, s) == Claimed && StatusFromTicket(Closed, s) == Done
    ensures s.Other? && tk != InProgress && tk != Closed ==> StatusFromTicket(tk, s) == Pending
  {
  }

  predicate IsActiveStatus(s: Status) {
    s == Claimed || s == Implementing || s == Verifying || s == UnderReview
  }

  predicate IsDispatchable(s: Status) {
    s == Pending || s == RepairPending
  }

  // ----- timestamps -----

  /** Nanoseconds since Go's zero time, 1 January of year 1, UTC. */
  const SECOND: int := 1_000_000_000
  /** Seconds from the zero time to the year 10000, the first year RFC 3339 (section 5.6) cannot write. */
  const YEAR_10000: int := 315_537_897_600
  /** Seconds from the zero time back to the start of year 0, the first one with four digits. */
  const YEAR_0: int := -31_622_400

  /** Days before the first of January of a year after the first, in the Gregorian calendar. */
  function DaysBefore(year: nat): nat
    requires year > 0
  {
    365 * (year - 1) + (year - 1) / 4 - (year - 1) / 100 + (year - 1) / 400
  }

  /** A day has 86400 seconds, and year 0 is a leap year. */
  lemma YearsAreGregorian()
    ensures YEAR_10000 == 86_400 * DaysBefore(10_000) && YEAR_0 == -86_400 * 366 && SECOND == 1_000 * 1_000 * 1_000
  {
  }

  /** `time.Duration`: signed 64-bit nanoseconds. */
  type Duration = d: int | -0x8000_0000_0000_0000 <= d < 0x8000_0000_0000_0000
  /** A clock reading: late enough that adding any duration stays after the zero time. */
  type Clock = t: int | t > 0x8000_0000_0000_0000 witness 0x8000_0000_0000_0001

  /** A timestamp field: blank, or whole seconds since the zero time. */
  datatype Stamp = Blank | At(seconds: int)

  function FormatTime(t: int): Stamp {
    if t == 0 then Blank else At(t / SECOND)
  }

  /** An unreadable timestamp reads as the zero time. */
  function ParseTime(s: Stamp): int {
    match s
    case Blank => 0
    case At(sec) => if YEAR_0 <= sec < YEAR_10000 then sec * SECOND else 0
  }

  /** A written instant reads back rounded down to the second, for every instant a four-digit year can hold. */
  lemma ParseOfFormat(t: int)
    requires 0 < t < YEAR_10000 * SECOND
    ensures ParseTime(FormatTime(t)) <= t < ParseTime(FormatTime(t)) + SECOND
  {
  }

  // ----- frontmatter -----

  /** `payload` stands for the task fields the store copies without looking at them, `extra` for the
      fields only tk knows. */
  datatype Frontmatter = Frontmatter(
    id: Id, status: TkStatus, extended: Status, reason: string, deps: seq<Id>, links: seq<Id>, parent: Id,
    payload: string, extra: string, updatedAt: Stamp,
    claimedBy: string, claimBackend: string, claimExpires: Stamp, claimHeartbeat: Stamp)
  {
    /** The status the engine sees. */
    function TaskStatus(): Status {
      StatusFromTicket(status, extended)
    }
  }

  datatype File = File(fm: Frontmatter, body: string)

  /** The part of a task the engine and the store exchange. */
  datatype TicketTask = TicketTask(id: Id, status: Status, reason: string, deps: seq<Id>, parent: Id, payload: string,
                                   updatedAt: int)

  function FrontmatterToTask(fm: Frontmatter): TicketTask {
    TicketTask(fm.id, fm.TaskStatus(), fm.reason, fm.deps, fm.parent, fm.payload, ParseTime(fm.updatedAt))
  }

  function TaskToFrontmatter(task: TicketTask): Frontmatter {
    Frontmatter(task.id, StatusToTicket(task.status), task.status, task.reason, task.deps, [], task.parent,
                task.payload, "", FormatTime(task.updatedAt), "", "", Blank, Blank)
  }

  /** `UpdateFrontmatter`: the task's fields, tk's own fields kept, the claim kept only in an active state. */
  function UpdateFrontmatter(existing: Frontmatter, task: TicketTask): Frontmatter {
    var fm := TaskToFrontmatter(task).(links := existing.links, extra := existing.extra);
    if existing.claimedBy != "" && IsActiveStatus(task.status) then
      fm.(claimedBy := existing.claimedBy, claimBackend := existing.claimBackend,
          claimExpires := existing.claimExpires, claimHeartbeat := existing.claimHeartbeat)
    else fm
  }

  // ----- what each operation makes of one ticket file -----

  datatype Error =
    | TicketNotFound | AlreadyClaimed | NotClaimable | NotClaimed | NotClaimOwner | NotExpired | NotRetryable
  datatype Result<+T> = Ok(value: T) | Err(error: Error)

  /** The claim on a ticket has an end that can be read and is not reached yet. */
  predicate LeaseRuns(fm: Frontmatter, now: int) {
    ParseTime(fm.claimExpires) != 0 && now < ParseTime(fm.claimExpires)
  }

  /** `validateClaimEligibility`: None when the claim may proceed. */
  function ClaimRefusal(fm: Frontmatter, owner: string, now: int): Result<()> {
    if fm.claimedBy == owner then Ok(())
    else if fm.claimedBy != "" then
      var expires := ParseTime(fm.claimExpires);
      if expires != 0 && now < expires then Err(AlreadyClaimed) else Ok(())
    else if IsDispatchable(fm.TaskStatus()) then Ok(())
    else Err(NotClaimable)
  }

  function WithClaim(fm: Frontmatter, owner: string, backend: string, lease: Duration, now: int): Frontmatter {
    fm.(claimedBy := owner, claimBackend := backend, claimExpires := FormatTime(now + lease),
        claimHeartbeat := FormatTime(now), extended := Claimed, status := StatusToTicket(Claimed),
        updatedAt := FormatTime(now))
  }

  function Unclaimed(fm: Frontmatter, status: Status, reason: string, now: int): Frontmatter {
    fm.(claimedBy := "", claimBackend := "", claimExpires := Blank, claimHeartbeat := Blank,
        extended := status, status := StatusToTicket(status), reason := reason, updatedAt := FormatTime(now))
  }

  function ClaimFile(f: File, owner: string, backend: string, lease: Duration, now: int): Result<File> {
    match ClaimRefusal(f.fm, owner, now)
    case Err(e) => Err(e)
    case Ok(_) => Ok(f.(fm := WithClaim(f.fm, owner, backend, lease, now)))
  }

  /** Both `RenewClaim` and `ReleaseClaim` let only the current holder in. */
  function HolderRefusal(fm: Frontmatter, owner: string): Result<()> {
    if fm.claimedBy == "" then Err(NotClaimed)
    else if fm.claimedBy != owner then Err(NotClaimOwner)
    else Ok(())
  }

  function RenewFile(f: File, owner: string, lease: Duration, now: int): Result<File> {
    match HolderRefusal(f.fm, owner)
    case Err(e) => Err(e)
    case Ok(_) =>
      Ok(f.(fm := f.fm.(claimExpires := FormatTime(now + lease), claimHeartbeat := FormatTime(now),
                        updatedAt := FormatTime(now))))
  }

  function ReleaseFile(f: File, owner: string, status: Status, reason: string, now: int): Result<File> {
    match HolderRefusal(f.fm, owner)
    case Err(e) => Err(e)
    case Ok(_) => Ok(f.(fm := Unclaimed(f.fm, status, if reason != "" then reason else f.fm.reason, now)))
  }

  predicate Expired(fm: Frontmatter, now: int) {
    fm.claimedBy != "" && ParseTime(fm.claimExpires) != 0 && ParseTime(fm.claimExpires) < now
  }

  function Reclaimed(f: File, scanned: int): File {
    f.(fm := Unclaimed(f.fm, Pending, "claim expired", scanned))
  }

  /** `reclaimOne`: the locked re-check of one ticket the sweep found expired at `scanned`. */
  function ReclaimFile(f: File, scanned: int): Result<File> {
    if Expired(f.fm, scanned) then Ok(Reclaimed(f, scanned))
    else Err(NotExpired)
  }

  function SetStatusFile(f: File, status: Status, reason: string, now: int): File {
    f.(fm := UpdateFrontmatter(f.fm, FrontmatterToTask(f.fm).(status := status, reason := reason, updatedAt := now)))
  }

  function WriteFile(f: File, task: TicketTask, now: int): File {
    f.(fm := UpdateFrontmatter(f.fm, task.(updatedAt := now)))
  }

  function AddDepFile(f: File, dep: Id, now: int): File {
    var task := FrontmatterToTask(f.fm);
    if dep in task.deps then f
    else f.(fm := UpdateFrontmatter(f.fm, task.(deps := task.deps + [dep], updatedAt := now)))
  }

  function RemoveDepFile(f: File, dep: Id, now: int): File {
    var task := FrontmatterToTask(f.fm);
    f.(fm := UpdateFrontmatter(f.fm, task.(deps := Without(task.deps, dep), updatedAt := now)))
  }

  function NoteFile(f: File, note: string): File {
    f.(body := f.body + note)
  }

  function LinkFile(f: File, other: Id, now: int): File {
    if other in f.fm.links then f
    else f.(fm := f.fm.(links := f.fm.links + [other], updatedAt := FormatTime(now)))
  }

  function UnlinkFile(f: File, other: Id, now: int): File {
    if other !in f.fm.links then f
    else f.(fm := f.fm.(links := Without(f.fm.links, other), updatedAt := FormatTime(now)))
  }
}

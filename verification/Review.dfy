/** The deterministic review of an execution plan: what it finds, and exactly which plans pass. */
module Review {
  import opened Strings
  import opened Graphs
  import opened Paths
  import opened CycleSearch
  import opened Plans

  datatype Finding = Finding(category: string, sliceId: string)

  // ----- lists of findings -----

  /** The findings `f` makes at 0, 1, ..., n - 1, in order. */
  ghost function Gather(n: nat, f: nat -> seq<Finding>): seq<Finding> {
    if n == 0 then [] else Gather(n - 1, f) + f(n - 1)
  }

  lemma {:induction false} GatherNothing(n: nat, f: nat -> seq<Finding>)
    ensures Gather(n, f) == [] <==> forall i: nat | i < n :: f(i) == []
  {
    if n > 0 { GatherNothing(n - 1, f); }
  }

  /** `base` extended by the first `n` lists of findings. */
  ghost predicate Gathered(findings: seq<Finding>, base: seq<Finding>, n: nat, f: nat -> seq<Finding>) {
    findings == base + Gather(n, f)
  }

  lemma GatheredNext(was: seq<Finding>, base: seq<Finding>, n: nat, f: nat -> seq<Finding>)
    requires Gathered(was, base, n, f)
    ensures Gathered(was + f(n), base, n + 1, f)
    ensures f(n) == [] ==> Gathered(was, base, n + 1, f)
  {
    assert was + f(n) == base + (Gather(n, f) + f(n));
    assert was + [] == was;
  }

  lemma GatheredStart(base: seq<Finding>, n: nat, f: nat -> seq<Finding>)
    ensures Gather(n, f) == [] ==> Gathered(base, base, n, f)
    ensures Gathered(base, base, 0, f)
  {
    assert base + [] == base;
  }

  lemma GatheredAll(findings: seq<Finding>, base: seq<Finding>, n: nat, f: nat -> seq<Finding>)
    requires Gathered(findings, base, n, f)
    ensures findings == base + Gather(n, f)
  {
  }

  // ----- slice IDs -----

  /** The IDs of the first `n` slices. */
  function IdSet(slices: seq<Slice>, n: nat): set<string>
    requires n <= |slices|
  {
    set i | 0 <= i < n && slices[i].sliceId != "" :: slices[i].sliceId
  }

  /** The last ID among the first `n` slices that reads `lower` in lower case. */
  function LastAlike(slices: seq<Slice>, n: nat, lower: string): (r: Option<string>)
    requires n <= |slices|
    ensures r.None? ==> forall i | 0 <= i < n && slices[i].sliceId != "" :: Lower(slices[i].sliceId) != lower
    ensures r.Some? ==> r.value in IdSet(slices, n) && Lower(r.value) == lower
  {
    if n == 0 then None
    else if slices[n - 1].sliceId != "" && Lower(slices[n - 1].sliceId) == lower then Some(slices[n - 1].sliceId)
    else LastAlike(slices, n - 1, lower)
  }

  /** What is wrong with the ID of slice `i`, given the slices before it. */
  function IdFinding(slices: seq<Slice>, i: nat): seq<Finding> {
    if i >= |slices| || slices[i].sliceId == "" then []
    else
      var id := slices[i].sliceId;
      var last := LastAlike(slices, i, Lower(id));
      (if id in IdSet(slices, i) then [Finding("duplicate_slice_id", id)] else [])
      + (if last.Some? && last.value != id then [Finding("case_colliding_slice_id", id)] else [])
  }

  ghost function IdFindings(slices: seq<Slice>): nat -> seq<Finding> {
    (i: nat) => IdFinding(slices, i)
  }

  // ----- dependencies -----

  /** `collectWaveIDs`: the wave of the last slice of that ID among the first `n`, or nothing. */
  function WaveOf(slices: seq<Slice>, n: nat, id: string): string
    requires n <= |slices|
  {
    if n == 0 then ""
    else if slices[n - 1].sliceId != "" && slices[n - 1].sliceId == id then slices[n - 1].waveId
    else WaveOf(slices, n - 1, id)
  }

  function DepFinding(slices: seq<Slice>, i: nat, k: nat): seq<Finding> {
    if i >= |slices| || k >= |slices[i].dependsOn| then []
    else
      var id, dep := slices[i].sliceId, slices[i].dependsOn[k];
      var wave := WaveOf(slices, |slices|, id);
      if dep == id then [Finding("self_dependency", id)]
      else if dep !in IdSet(slices, |slices|) then [Finding("unknown_dependency", id)]
      else if wave != "" && wave == WaveOf(slices, |slices|, dep) then [Finding("intra_wave_dependency", id)]
      else []
  }

  ghost function DepFindingsAt(slices: seq<Slice>, i: nat): nat -> seq<Finding> {
    (k: nat) => DepFinding(slices, i, k)
  }

  ghost function DepFindings(slices: seq<Slice>): nat -> seq<Finding> {
    (i: nat) => if i < |slices| then Gather(|slices[i].dependsOn|, DepFindingsAt(slices, i)) else []
  }

  /** The dependencies the cycle search follows: known ones, other than on the slice itself. */
  ghost predicate KeptEdge(slices: seq<Slice>, a: string, b: string) {
    a != b && b in IdSet(slices, |slices|)
    && exists i :: 0 <= i < |slices| && slices[i].sliceId == a && b in slices[i].dependsOn
  }

  ghost predicate IsAdjacency(slices: seq<Slice>, adj: Graph) {
    forall a, b :: Edge(adj, a, b) <==> KeptEdge(slices, a, b)
  }

  // ----- waves, fields, coverage -----

  ghost predicate SameWaveConflict(slices: seq<Slice>, i: nat, j: nat)
    requires i < |slices| && j < |slices|
  {
    slices[i].waveId != "" && slices[i].waveId == slices[j].waveId
      && ScopesOverlap(slices[i].Scope(), slices[j].Scope())
  }

  ghost function ConflictFindingsAt(slices: seq<Slice>, i: nat): nat -> seq<Finding> {
    (j: nat) =>
      if i < j < |slices| && SameWaveConflict(slices, i, j)
      then [Finding("intra_wave_file_conflict", slices[i].sliceId)]
      else []
  }

  ghost function ConflictFindings(slices: seq<Slice>): nat -> seq<Finding> {
    (i: nat) => Gather(|slices|, ConflictFindingsAt(slices, i))
  }

  predicate IsValidRisk(risk: string) {
    risk == "low" || risk == "medium" || risk == "high"
  }

  predicate IsValidSize(size: string) {
    size == "small" || size == "medium" || size == "large"
  }

  /** The table of field checks, in order. */
  function FieldChecks(s: Slice): seq<(bool, string)> {
    [(s.sliceId != "", "missing_slice_id"), (s.title != "", "missing_title"), (s.goal != "", "missing_goal"),
     (|s.requirementIds| > 0, "missing_requirement_ids"), (|s.ownedPaths| > 0, "missing_owned_paths"),
     (|s.acceptanceChecks| > 0, "missing_acceptance_checks"), (IsValidRisk(s.risk), "invalid_risk"),
     (IsValidSize(s.size), "invalid_size")]
  }

  ghost function FieldFindingsAt(s: Slice): nat -> seq<Finding> {
    (k: nat) => if k < |FieldChecks(s)| && !FieldChecks(s)[k].0 then [Finding(FieldChecks(s)[k].1, s.sliceId)] else []
  }

  ghost function FieldFindings(slices: seq<Slice>): nat -> seq<Finding> {
    (i: nat) => if i < |slices| then Gather(8, FieldFindingsAt(slices[i])) else []
  }

  ghost predicate Covered(slices: seq<Slice>, requirementId: string) {
    exists i :: 0 <= i < |slices| && requirementId in slices[i].requirementIds
  }

  ghost function CoverageFindings(slices: seq<Slice>, requirementIds: seq<string>): nat -> seq<Finding> {
    (i: nat) =>
      if i < |requirementIds| && !Covered(slices, requirementIds[i]) then [Finding("uncovered_requirement", "")] else []
  }

  /** What the cycle search adds: nothing, or one node that lies on a cycle. */
  ghost predicate IsCycleFinding(slices: seq<Slice>, adj: Graph, found: seq<Finding>) {
    if found == [] then
      exists order ::
        Topological(adj, order) && forall i | 0 <= i < |slices| && slices[i].sliceId != "" :: slices[i].sliceId in order
    else
      |found| == 1 && found[0].category == "dependency_cycle" && Reaches(adj, found[0].sliceId, found[0].sliceId)
  }

  /** All findings, in the order the review makes them; no requirements stands for an unreadable run artifact. */
  ghost predicate AreFindings(slices: seq<Slice>, requirementIds: Option<seq<string>>, findings: seq<Finding>) {
    exists adj, cycle ::
      && IsAdjacency(slices, adj) && IsCycleFinding(slices, adj, cycle)
      && findings == EarlyFindings(slices) + cycle + LateFindings(slices, requirementIds)
  }

  ghost function EarlyFindings(slices: seq<Slice>): seq<Finding> {
    (if slices == [] then [Finding("missing_slices", "")] else [])
    + Gather(|slices|, IdFindings(slices)) + Gather(|slices|, DepFindings(slices))
  }

  ghost function LateFindings(slices: seq<Slice>, requirementIds: Option<seq<string>>): seq<Finding> {
    Gather(|slices|, ConflictFindings(slices)) + Gather(|slices|, FieldFindings(slices))
    + match requirementIds
      case None => [Finding("artifact_read_failure", "")]
      case Some(ids) => Gather(|ids|, CoverageFindings(slices, ids))
  }

  // ----- what the findings say, on the slices alone -----

  /** A slice has an ID that an earlier one has, or that differs from the last earlier one alike only in case. */
  ghost predicate IdFault(slices: seq<Slice>, f: Finding) {
    exists i :: 0 <= i < |slices| && IdFaultAt(slices, i, f)
  }

  ghost predicate IdFaultAt(slices: seq<Slice>, i: nat, f: Finding)
    requires i < |slices|
  {
    var id := slices[i].sliceId;
    && id != "" && f.sliceId == id
    && ((f.category == "duplicate_slice_id" && exists j :: 0 <= j < i && slices[j].sliceId == id)
        || (f.category == "case_colliding_slice_id"
            && exists j :: LastAlikeAt(slices, id, i, j) && slices[j].sliceId != id))
  }

  /** Slice `j` is the last of the first `n` whose ID is like `id` but for case. */
  ghost predicate LastAlikeAt(slices: seq<Slice>, id: string, n: nat, j: int) {
    && 0 <= j < n <= |slices| && slices[j].sliceId != "" && SameButCase(slices[j].sliceId, id)
    && forall k | j < k < n :: slices[k].sliceId == "" || !SameButCase(slices[k].sliceId, id)
  }

  /** Slice `j` is the last one of the ID. */
  ghost predicate LastSlice(slices: seq<Slice>, id: string, j: int) {
    0 <= j < |slices| && slices[j].sliceId == id != "" && forall k | j < k < |slices| :: slices[k].sliceId != id
  }

  /** A dependency on the slice itself, or on no slice, or on one of the same named wave. */
  ghost predicate DepFault(slices: seq<Slice>, f: Finding) {
    exists i, k :: 0 <= i < |slices| && 0 <= k < |slices[i].dependsOn|
                   && DepFaultAt(slices, i, slices[i].dependsOn[k], f)
  }

  ghost predicate DepFaultAt(slices: seq<Slice>, i: nat, dep: string, f: Finding)
    requires i < |slices|
  {
    var id := slices[i].sliceId;
    && f.sliceId == id
    && if dep == id then f.category == "self_dependency"
       else if !(exists j :: LastSlice(slices, dep, j)) then f.category == "unknown_dependency"
       else f.category == "intra_wave_dependency"
            && exists a, b :: LastSlice(slices, id, a) && LastSlice(slices, dep, b)
                              && slices[a].waveId == slices[b].waveId != ""
  }

  /** A path counts for a slice when it is one of its files, or, when none are listed, one it owns. */
  ghost predicate CountsFor(s: Slice, path: string) {
    path in s.filesLikelyTouched || (s.filesLikelyTouched == [] && path in s.ownedPaths)
  }

  /** Two slices of one named wave touch overlapping paths; the earlier is named. */
  ghost predicate ConflictFault(slices: seq<Slice>, f: Finding) {
    f.category == "intra_wave_file_conflict"
    && exists i, j :: 0 <= i < j < |slices| && f.sliceId == slices[i].sliceId
                      && slices[i].waveId == slices[j].waveId != "" && TouchAlike(slices[i], slices[j])
  }

  ghost predicate TouchAlike(s: Slice, t: Slice) {
    exists p, q :: CountsFor(s, p) && CountsFor(t, q) && Overlap(p, q)
  }

  /** A field is blank, or says something it may not. */
  ghost predicate FieldFault(slices: seq<Slice>, f: Finding) {
    exists i :: 0 <= i < |slices| && f.sliceId == slices[i].sliceId && FieldFaultOf(slices[i], f.category)
  }

  ghost predicate FieldFaultOf(s: Slice, category: string) {
    || (category == "missing_slice_id" && s.sliceId == "")
    || (category == "missing_title" && s.title == "")
    || (category == "missing_goal" && s.goal == "")
    || (category == "missing_requirement_ids" && s.requirementIds == [])
    || (category == "missing_owned_paths" && s.ownedPaths == [])
    || (category == "missing_acceptance_checks" && s.acceptanceChecks == [])
    || (category == "invalid_risk" && s.risk !in ["low", "medium", "high"])
    || (category == "invalid_size" && s.size !in ["small", "medium", "large"])
  }

  ghost predicate OtherFault(slices: seq<Slice>, requirementIds: Option<seq<string>>, f: Finding) {
    && f.sliceId == ""
    && ((f.category == "missing_slices" && slices == [])
        || (f.category == "artifact_read_failure" && requirementIds.None?)
        || (f.category == "uncovered_requirement" && requirementIds.Some?
            && exists r :: r in requirementIds.value
                           && forall i | 0 <= i < |slices| :: r !in slices[i].requirementIds))
  }

  lemma {:induction false} GatherMembers(n: nat, f: nat -> seq<Finding>, x: Finding)
    ensures x in Gather(n, f) <==> exists i: nat :: i < n && x in f(i)
  {
    if n > 0 { GatherMembers(n - 1, f, x); }
  }

  lemma {:induction false} LastAlikeFound(slices: seq<Slice>, id: string, n: nat)
    requires n <= |slices|
    ensures LastAlike(slices, n, Lower(id)).Some? ==>
              exists j :: LastAlikeAt(slices, id, n, j) && LastAlike(slices, n, Lower(id)) == Some(slices[j].sliceId)
  {
    hide SameButCase, Lower;
    if n > 0 {
      var m := n - 1;
      SameLowerIff(slices[m].sliceId, id);
      LastAlikeFound(slices, id, m);
      if slices[n - 1].sliceId != "" && SameButCase(slices[n - 1].sliceId, id) {
        assert LastAlikeAt(slices, id, n, n - 1);
      } else if j :| LastAlikeAt(slices, id, m, j) {
        assert LastAlikeAt(slices, id, n, j);
      }
    }
  }

  lemma LastAlikeNone(slices: seq<Slice>, id: string, n: nat)
    requires n <= |slices| && LastAlike(slices, n, Lower(id)).None?
    ensures forall j :: !LastAlikeAt(slices, id, n, j)
  {
    hide SameButCase, Lower, LastAlike;
    forall j ensures !LastAlikeAt(slices, id, n, j) {
      if 0 <= j < n { SameLowerIff(slices[j].sliceId, id); }
    }
  }

  lemma OneLastAlike(slices: seq<Slice>, id: string, n: nat, i: int, j: int)
    requires LastAlikeAt(slices, id, n, i) && LastAlikeAt(slices, id, n, j)
    ensures i == j
  {
    hide SameButCase;
  }

  lemma {:induction false} CollisionIs(slices: seq<Slice>, i: nat)
    requires i < |slices|
    ensures var id := slices[i].sliceId;
            (LastAlike(slices, i, Lower(id)).Some? && LastAlike(slices, i, Lower(id)).value != id) <==>
            exists j :: LastAlikeAt(slices, id, i, j) && slices[j].sliceId != id
  {
    hide SameButCase, Lower, LastAlike, LastAlikeAt;
    var id := slices[i].sliceId;
    LastAlikeFound(slices, id, i);
    if LastAlike(slices, i, Lower(id)).None? { LastAlikeNone(slices, id, i); }
    forall a, b | LastAlikeAt(slices, id, i, a) && LastAlikeAt(slices, id, i, b) ensures a == b {
      OneLastAlike(slices, id, i, a, b);
    }
    forall a | LastAlikeAt(slices, id, i, a) ensures 0 <= a < i { AlikeIsBefore(slices, id, i, a); }
  }

  lemma AlikeIsBefore(slices: seq<Slice>, id: string, n: nat, j: int)
    requires LastAlikeAt(slices, id, n, j)
    ensures 0 <= j < n
  {
  }

  lemma {:induction false} IdFindingMeans(slices: seq<Slice>, i: nat, f: Finding)
    requires i < |slices|
    ensures f in IdFinding(slices, i) <==> IdFaultAt(slices, i, f)
  {
    hide SameButCase, Lower, LastAlike, LastAlikeAt;
    var id := slices[i].sliceId;
    if id != "" {
      CollisionIs(slices, i);
      SeenBefore(slices, i, id);
      hide IdSet;
      assert "duplicate_slice_id"[0] == 'd' && "case_colliding_slice_id"[0] == 'c';
    }
  }

  lemma SeenBefore(slices: seq<Slice>, i: nat, id: string)
    requires i <= |slices| && id != ""
    ensures id in IdSet(slices, i) <==> exists j :: 0 <= j < i && slices[j].sliceId == id
  {
  }

  lemma {:induction false} WaveOfLast(slices: seq<Slice>, n: nat, id: string, j: nat)
    requires j < n <= |slices| && slices[j].sliceId == id != "" && forall k | j < k < n :: slices[k].sliceId != id
    ensures WaveOf(slices, n, id) == slices[j].waveId
  {
    if j < n - 1 { WaveOfLast(slices, n - 1, id, j); }
  }

  lemma {:induction false} WaveOfNone(slices: seq<Slice>, n: nat, id: string)
    requires n <= |slices| && (id == "" || forall j | 0 <= j < n :: slices[j].sliceId != id)
    ensures WaveOf(slices, n, id) == ""
  {
    if n > 0 { WaveOfNone(slices, n - 1, id); }
  }

  lemma {:induction false} LastSliceExists(slices: seq<Slice>, n: nat, id: string) returns (j: int)
    requires n <= |slices| && id != "" && exists i :: 0 <= i < n && slices[i].sliceId == id
    ensures 0 <= j < n && slices[j].sliceId == id && forall k | j < k < n :: slices[k].sliceId != id
  {
    if slices[n - 1].sliceId == id { j := n - 1; } else { j := LastSliceExists(slices, n - 1, id); }
  }

  lemma KnownIff(slices: seq<Slice>, id: string)
    ensures id in IdSet(slices, |slices|) <==> exists j :: LastSlice(slices, id, j)
  {
    if id in IdSet(slices, |slices|) {
      var j := LastSliceExists(slices, |slices|, id);
      assert LastSlice(slices, id, j);
    }
  }

  lemma DepFindingMeans(slices: seq<Slice>, i: nat, k: nat, f: Finding)
    requires i < |slices| && k < |slices[i].dependsOn|
    ensures f in DepFinding(slices, i, k) <==> DepFaultAt(slices, i, slices[i].dependsOn[k], f)
  {
    var id, dep := slices[i].sliceId, slices[i].dependsOn[k];
    KnownIff(slices, dep);
    KnownIff(slices, id);
    if id == "" { WaveOfNone(slices, |slices|, id); }
    if id != "" { var a := LastSliceExists(slices, |slices|, id); assert LastSlice(slices, id, a); }
    hide IdSet, WaveOf;
    forall a | LastSlice(slices, id, a) ensures WaveOf(slices, |slices|, id) == slices[a].waveId {
      WaveOfLast(slices, |slices|, id, a);
    }
    forall b | LastSlice(slices, dep, b) ensures WaveOf(slices, |slices|, dep) == slices[b].waveId {
      WaveOfLast(slices, |slices|, dep, b);
    }
    assert "self_dependency"[0] == 's' && "unknown_dependency"[0] == 'u' && "intra_wave_dependency"[0] == 'i';
  }

  lemma TouchAlikeIff(s: Slice, t: Slice)
    ensures ScopesOverlap(s.Scope(), t.Scope()) <==> TouchAlike(s, t)
  {
    hide Overlap;
    if ScopesOverlap(s.Scope(), t.Scope()) {
      var i, j :| 0 <= i < |s.Scope()| && 0 <= j < |t.Scope()| && Overlap(s.Scope()[i], t.Scope()[j]);
      assert CountsFor(s, s.Scope()[i]) && CountsFor(t, t.Scope()[j]);
    }
    if p, q :| CountsFor(s, p) && CountsFor(t, q) && Overlap(p, q) {
      var i :| 0 <= i < |s.Scope()| && s.Scope()[i] == p;
      var j :| 0 <= j < |t.Scope()| && t.Scope()[j] == q;
    }
  }

  ghost predicate NamesConflict(slices: seq<Slice>, i: nat, j: nat, f: Finding) {
    && i < j < |slices| && SameWaveConflict(slices, i, j)
    && f == Finding("intra_wave_file_conflict", slices[i].sliceId)
  }

  lemma {:induction false} ConflictFindingMeans(slices: seq<Slice>, i: nat, f: Finding)
    requires i < |slices|
    ensures f in ConflictFindings(slices)(i) <==> exists j: nat :: NamesConflict(slices, i, j, f)
  {
    hide Gather, SameWaveConflict;
    GatherMembers(|slices|, ConflictFindingsAt(slices, i), f);
    assert forall j: nat :: f in ConflictFindingsAt(slices, i)(j) <==> NamesConflict(slices, i, j, f);
    hide ConflictFindingsAt;
  }

  lemma ConflictNamed(slices: seq<Slice>, i: nat, j: nat, f: Finding)
    ensures NamesConflict(slices, i, j, f) <==>
              && i < j < |slices| && slices[i].waveId == slices[j].waveId != "" && TouchAlike(slices[i], slices[j])
              && f.category == "intra_wave_file_conflict" && f.sliceId == slices[i].sliceId
  {
    if i < j < |slices| { TouchAlikeIff(slices[i], slices[j]); }
    hide TouchAlike, ScopesOverlap;
  }

  lemma {:induction false} ConflictFindingsMean(slices: seq<Slice>, f: Finding)
    ensures f in Gather(|slices|, ConflictFindings(slices)) <==> ConflictFault(slices, f)
  {
    hide Gather, TouchAlike, NamesConflict, ConflictFindings;
    GatherMembers(|slices|, ConflictFindings(slices), f);
    forall i: nat | i < |slices|
      ensures f in ConflictFindings(slices)(i) <==> exists j: nat :: NamesConflict(slices, i, j, f)
    {
      ConflictFindingMeans(slices, i, f);
    }
    forall i: nat, j: nat
      ensures NamesConflict(slices, i, j, f) <==>
                && i < j < |slices| && slices[i].waveId == slices[j].waveId != "" && TouchAlike(slices[i], slices[j])
                && f.category == "intra_wave_file_conflict" && f.sliceId == slices[i].sliceId
    {
      ConflictNamed(slices, i, j, f);
    }
    if ConflictFault(slices, f) {
      var i, j :| 0 <= i < j < |slices| && f.sliceId == slices[i].sliceId
                  && slices[i].waveId == slices[j].waveId != "" && TouchAlike(slices[i], slices[j]);
      assert NamesConflict(slices, i, j, f);
    }
    if i: nat, j: nat :| i < |slices| && NamesConflict(slices, i, j, f) {
      assert f in ConflictFindings(slices)(i) && ConflictFault(slices, f);
    }
  }

  lemma IdFindingsMean(slices: seq<Slice>, f: Finding)
    ensures f in Gather(|slices|, IdFindings(slices)) <==> IdFault(slices, f)
  {
    hide Gather, IdFinding, IdFaultAt;
    GatherMembers(|slices|, IdFindings(slices), f);
    forall i: nat | i < |slices| ensures f in IdFindings(slices)(i) <==> IdFaultAt(slices, i, f) {
      IdFindingMeans(slices, i, f);
    }
    hide IdFindings;
  }

  lemma DepFindingsMean(slices: seq<Slice>, f: Finding)
    ensures f in Gather(|slices|, DepFindings(slices)) <==> DepFault(slices, f)
  {
    hide Gather, DepFinding, DepFaultAt;
    GatherMembers(|slices|, DepFindings(slices), f);
    forall i: nat | i < |slices| ensures f in DepFindings(slices)(i) <==>
        exists k: nat :: k < |slices[i].dependsOn| && DepFaultAt(slices, i, slices[i].dependsOn[k], f) {
      GatherMembers(|slices[i].dependsOn|, DepFindingsAt(slices, i), f);
      forall k: nat | k < |slices[i].dependsOn|
        ensures f in DepFindingsAt(slices, i)(k) <==> DepFaultAt(slices, i, slices[i].dependsOn[k], f)
      {
        DepFindingMeans(slices, i, k, f);
      }
    }
    hide DepFindings;
  }

  lemma FieldFindingMeans(s: Slice, f: Finding)
    ensures f in Gather(8, FieldFindingsAt(s)) <==> f.sliceId == s.sliceId && FieldFaultOf(s, f.category)
  {
    GatherMembers(8, FieldFindingsAt(s), f);
    FieldTable(s);
    hide Gather, FieldChecks;
    assert forall k: nat :: f in FieldFindingsAt(s)(k) <==>
      k < 8 && !FieldChecks(s)[k].0 && f == Finding(FieldChecks(s)[k].1, s.sliceId);
    hide FieldFindingsAt;
  }

  lemma FieldTable(s: Slice)
    ensures |FieldChecks(s)| == 8
    ensures forall c :: FieldFaultOf(s, c) <==>
              exists k: nat :: k < 8 && !FieldChecks(s)[k].0 && FieldChecks(s)[k].1 == c
  {
    var checks := FieldChecks(s);
    RiskAndSize(s);
    assert checks[0] == (s.sliceId != "", "missing_slice_id") && checks[1] == (s.title != "", "missing_title")
           && checks[2] == (s.goal != "", "missing_goal")
           && checks[3] == (|s.requirementIds| > 0, "missing_requirement_ids")
           && checks[4] == (|s.ownedPaths| > 0, "missing_owned_paths")
           && checks[5] == (|s.acceptanceChecks| > 0, "missing_acceptance_checks")
           && checks[6] == (IsValidRisk(s.risk), "invalid_risk") && checks[7] == (IsValidSize(s.size), "invalid_size");
    hide FieldChecks, IsValidRisk, IsValidSize;
    forall c | FieldFaultOf(s, c) ensures exists k: nat :: k < 8 && !checks[k].0 && checks[k].1 == c {
      var k := if c == "missing_slice_id" then 0 else if c == "missing_title" then 1 else if c == "missing_goal" then 2
               else if c == "missing_requirement_ids" then 3 else if c == "missing_owned_paths" then 4
               else if c == "missing_acceptance_checks" then 5 else if c == "invalid_risk" then 6 else 7;
      assert !checks[k].0 && checks[k].1 == c;
    }
  }

  lemma RiskAndSize(s: Slice)
    ensures IsValidRisk(s.risk) <==> s.risk in ["low", "medium", "high"]
    ensures IsValidSize(s.size) <==> s.size in ["small", "medium", "large"]
  {
  }

  lemma FieldFindingsMean(slices: seq<Slice>, f: Finding)
    ensures f in Gather(|slices|, FieldFindings(slices)) <==> FieldFault(slices, f)
  {
    hide Gather, FieldFindingsAt, FieldFaultOf;
    GatherMembers(|slices|, FieldFindings(slices), f);
    forall i: nat | i < |slices|
      ensures f in FieldFindings(slices)(i) <==> f.sliceId == slices[i].sliceId && FieldFaultOf(slices[i], f.category)
    {
      FieldFindingMeans(slices[i], f);
    }
    hide FieldFindings;
  }

  lemma {:induction false} CoverageFindingsMean(slices: seq<Slice>, ids: seq<string>, f: Finding)
    ensures f in Gather(|ids|, CoverageFindings(slices, ids)) <==>
              f.category == "uncovered_requirement" && OtherFault(slices, Some(ids), f)
  {
    hide Gather, Covered;
    GatherMembers(|ids|, CoverageFindings(slices, ids), f);
    forall i: nat | i < |ids| ensures f in CoverageFindings(slices, ids)(i) <==>
        !Covered(slices, ids[i]) && f == Finding("uncovered_requirement", "") {
    }
    hide CoverageFindings;
    forall r ensures Covered(slices, r) <==> !forall i | 0 <= i < |slices| :: r !in slices[i].requirementIds {
      CoveredIs(slices, r);
    }
    UncoveredAmong(slices, ids);
  }

  lemma CoveredIs(slices: seq<Slice>, r: string)
    ensures Covered(slices, r) <==> !forall i | 0 <= i < |slices| :: r !in slices[i].requirementIds
  {
  }

  lemma UncoveredAmong(slices: seq<Slice>, ids: seq<string>)
    ensures (exists i: nat :: i < |ids| && !Covered(slices, ids[i])) <==> exists r :: r in ids && !Covered(slices, r)
  {
    hide Covered;
    if r :| r in ids && !Covered(slices, r) {
      var i: nat :| i < |ids| && ids[i] == r;
      assert !Covered(slices, ids[i]);
    }
  }

  /** What a review finds, category by category, without the order in which it looks: apart from the one cycle it may
      name, a finding is made exactly when the slices, and the requirements, have the fault it names. */
  lemma {:induction false} FindingsMean(slices: seq<Slice>, requirementIds: Option<seq<string>>,
                                        findings: seq<Finding>, f: Finding)
    requires AreFindings(slices, requirementIds, findings) && f.category != "dependency_cycle"
    ensures f in findings <==>
              IdFault(slices, f) || DepFault(slices, f) || ConflictFault(slices, f) || FieldFault(slices, f)
              || OtherFault(slices, requirementIds, f)
  {
    var adj, cycle :| IsAdjacency(slices, adj) && IsCycleFinding(slices, adj, cycle)
                      && findings == EarlyFindings(slices) + cycle + LateFindings(slices, requirementIds);
    hide Gather, IsAdjacency, IsCycleFinding, IdFault, DepFault, ConflictFault, FieldFault, OtherFault;
    CycleIsOther(slices, adj, cycle, f);
    IdFindingsMean(slices, f);
    DepFindingsMean(slices, f);
    ConflictFindingsMean(slices, f);
    FieldFindingsMean(slices, f);
    if requirementIds.Some? { CoverageFindingsMean(slices, requirementIds.value, f); }
    OtherFaultSplits(slices, requirementIds, f);
  }

  lemma CycleIsOther(slices: seq<Slice>, adj: Graph, cycle: seq<Finding>, f: Finding)
    requires IsCycleFinding(slices, adj, cycle) && f.category != "dependency_cycle"
    ensures f !in cycle
  {
    hide Topological, Reaches;
  }

  lemma OtherFaultSplits(slices: seq<Slice>, requirementIds: Option<seq<string>>, f: Finding)
    ensures OtherFault(slices, requirementIds, f) <==>
              || (slices == [] && f == Finding("missing_slices", ""))
              || (requirementIds.None? && f == Finding("artifact_read_failure", ""))
              || (requirementIds.Some? && f.category == "uncovered_requirement"
                  && OtherFault(slices, Some(requirementIds.value), f))
  {
  }

  /** And no check makes its finding twice. */
  lemma OneFindingEach(slices: seq<Slice>, ids: seq<string>, i: nat, j: nat)
    ensures |IdFinding(slices, i)| <= 2 && |DepFinding(slices, i, j)| <= 1 && |ConflictFindingsAt(slices, i)(j)| <= 1
    ensures |CoverageFindings(slices, ids)(i)| <= 1 && (i < |slices| ==> |FieldFindingsAt(slices[i])(j)| <= 1)
    ensures |IdFinding(slices, i)| == 2 ==> IdFinding(slices, i)[0] != IdFinding(slices, i)[1]
  {
    assert "duplicate_slice_id"[0] == 'd' && "case_colliding_slice_id"[0] == 'c';
  }

  // ----- the review -----

  class PlanReview {
    var findings: seq<Finding>
    var pass: bool

    ghost predicate Valid()
      reads this
    {
      pass <==> findings == []
    }

    constructor ()
      ensures Valid() && findings == []
    {
      findings, pass := [], true;
    }

    method Block(category: string, sliceId: string)
      modifies this
      ensures Valid() && findings == old(findings) + [Finding(category, sliceId)]
    {
      pass := false;
      findings := findings + [Finding(category, sliceId)];
    }

    /** One step of `validateSliceIDs`: `idSet` and `lowerSet` are those of the slices before `i`. */
    method ValidateSliceId(slices: seq<Slice>, i: nat, idSet: set<string>, lowerSet: map<string, string>)
      requires Valid() && i < |slices| && slices[i].sliceId != ""
      requires idSet == IdSet(slices, i) && LowerTable(slices, i, lowerSet)
      modifies this
      ensures Valid() && findings == old(findings) + IdFinding(slices, i)
    {
      var id := slices[i].sliceId;
      var lower := Lower(id);
      LowerTableNext(slices, i, lowerSet);
      hide LowerTable, LastAlike, Lower, IdSet;
      if id in idSet {
        Block("duplicate_slice_id", id);
      }
      if lower in lowerSet && lowerSet[lower] != id {
        Block("case_colliding_slice_id", id);
      }
    }

    method ValidateSliceIds(slices: seq<Slice>) returns (idSet: set<string>)
      requires Valid()
      modifies this
      ensures Valid() && findings == old(findings) + Gather(|slices|, IdFindings(slices))
      ensures idSet == IdSet(slices, |slices|)
    {
      idSet := {};
      var lowerSet: map<string, string> := map[];
      hide Gathered;
      GatheredStart(findings, 0, IdFindings(slices));
      for i := 0 to |slices|
        invariant Valid() && Gathered(findings, old(findings), i, IdFindings(slices))
        invariant idSet == IdSet(slices, i)
        invariant LowerTable(slices, i, lowerSet)
      {
        IdSetGrows(slices, i);
        LowerTableNext(slices, i, lowerSet);
        assert IdFindings(slices)(i) == IdFinding(slices, i);
        GatheredNext(findings, old(findings), i, IdFindings(slices));
        hide LowerTable, Lower, IdSet, IdFindings, LastAlike;
        var id := slices[i].sliceId;
        if id == "" {
          continue;
        }
        ValidateSliceId(slices, i, idSet, lowerSet);
        idSet := idSet + {id};
        lowerSet := lowerSet[Lower(id) := id];
      }
      GatheredAll(findings, old(findings), |slices|, IdFindings(slices));
    }

    method ValidateDep(slices: seq<Slice>, i: nat, k: nat, idSet: set<string>, waves: map<string, string>, adj: Graph)
      returns (after: Graph)
      requires Valid() && i < |slices| && k < |slices[i].dependsOn|
      requires idSet == IdSet(slices, |slices|) && WavesOf(slices, waves)
      modifies this
      ensures Valid() && findings == old(findings) + DepFinding(slices, i, k)
      ensures var id, dep := slices[i].sliceId, slices[i].dependsOn[k];
              after == if dep == id || dep !in idSet then adj
                       else adj[id := (if id in adj then adj[id] else []) + [dep]]
    {
      var id, dep := slices[i].sliceId, slices[i].dependsOn[k];
      after := adj;
      if dep == id {
        Block("self_dependency", id);
        return;
      }
      if dep !in idSet {
        Block("unknown_dependency", id);
        return;
      }
      var wave := if id in waves then waves[id] else "";
      if wave != "" && wave == (if dep in waves then waves[dep] else "") {
        Block("intra_wave_dependency", id);
      }
      after := adj[id := (if id in adj then adj[id] else []) + [dep]];
    }

    /** The dependencies of slice `i`. */
    method ValidateDepsOf(slices: seq<Slice>, i: nat, idSet: set<string>, waves: map<string, string>, before: Graph)
      returns (adj: Graph)
      requires Valid() && i < |slices| && Added(before, slices, idSet, i, 0)
      requires idSet == IdSet(slices, |slices|) && WavesOf(slices, waves)
      modifies this
      ensures Valid() && findings == old(findings) + DepFindings(slices)(i)
      ensures Added(adj, slices, idSet, i + 1, 0)
    {
      hide IdSet, DepFinding, WavesOf, Added, Gathered;
      adj := before;
      GatheredStart(findings, 0, DepFindingsAt(slices, i));
      for k := 0 to |slices[i].dependsOn|
        invariant Valid() && Gathered(findings, old(findings), k, DepFindingsAt(slices, i))
        invariant Added(adj, slices, idSet, i, k)
      {
        GatheredNext(findings, old(findings), k, DepFindingsAt(slices, i));
        AddedNext(adj, slices, idSet, i, k);
        adj := ValidateDep(slices, i, k, idSet, waves, adj);
      }
      GatheredAll(findings, old(findings), |slices[i].dependsOn|, DepFindingsAt(slices, i));
      AddedAll(adj, slices, idSet, i);
    }

    method ValidateSliceDeps(slices: seq<Slice>, idSet: set<string>, waves: map<string, string>) returns (adj: Graph)
      requires Valid() && idSet == IdSet(slices, |slices|) && WavesOf(slices, waves)
      modifies this
      ensures Valid() && findings == old(findings) + Gather(|slices|, DepFindings(slices))
      ensures IsAdjacency(slices, adj)
    {
      adj := map[];
      assert Added(adj, slices, idSet, 0, 0);
      GatheredStart(findings, 0, DepFindings(slices));
      AddedEverything(slices);
      hide IdSet, WavesOf, Added, Gathered, IsAdjacency, DepFindings;
      for i := 0 to |slices|
        invariant Valid() && Gathered(findings, old(findings), i, DepFindings(slices))
        invariant Added(adj, slices, idSet, i, 0)
      {
        GatheredNext(findings, old(findings), i, DepFindings(slices));
        adj := ValidateDepsOf(slices, i, idSet, waves, adj);
      }
      GatheredAll(findings, old(findings), |slices|, DepFindings(slices));
    }

    method DetectSliceCycles(slices: seq<Slice>, adj: Graph) returns (ghost cycle: seq<Finding>)
      requires Valid()
      modifies this
      ensures Valid() && findings == old(findings) + cycle && IsCycleFinding(slices, adj, cycle)
    {
      var ids := seq(|slices|, i requires 0 <= i < |slices| => slices[i].sliceId);
      var node, found;
      ghost var order;
      node, found, order := FindCycleInGraph(ids, adj);
      cycle := [];
      if found {
        Block("dependency_cycle", node);
        cycle := [Finding("dependency_cycle", node)];
      } else {
        forall i | 0 <= i < |slices| && slices[i].sliceId != "" ensures slices[i].sliceId in order {
          assert ids[i] in ids;
        }
      }
    }

    /** Slice `i` against the later slices. */
    method DetectConflictsOf(slices: seq<Slice>, i: nat)
      requires Valid() && i < |slices| && slices[i].waveId != ""
      modifies this
      ensures Valid() && findings == old(findings) + Gather(|slices|, ConflictFindingsAt(slices, i))
    {
      var left := slices[i];
      NoConflictsBefore(slices, i);
      hide SameWaveConflict, ConflictFindingsAt, Gathered;
      GatheredStart(findings, i + 1, ConflictFindingsAt(slices, i));
      for j := i + 1 to |slices|
        invariant Valid() && Gathered(findings, old(findings), j, ConflictFindingsAt(slices, i))
      {
        GatheredNext(findings, old(findings), j, ConflictFindingsAt(slices, i));
        var right := slices[j];
        ConflictAt(slices, i, j);
        if left.waveId != right.waveId {
          continue;
        }
        var path := ConflictPath(left.Scope(), right.Scope());
        if path.Some? {
          Block("intra_wave_file_conflict", left.sliceId);
        }
      }
      GatheredAll(findings, old(findings), |slices|, ConflictFindingsAt(slices, i));
    }

    method DetectIntraWaveConflicts(slices: seq<Slice>)
      requires Valid()
      modifies this
      ensures Valid() && findings == old(findings) + Gather(|slices|, ConflictFindings(slices))
    {
      hide Gathered, SameWaveConflict, ConflictFindings, ConflictFindingsAt;
      GatheredStart(findings, 0, ConflictFindings(slices));
      for i := 0 to |slices|
        invariant Valid() && Gathered(findings, old(findings), i, ConflictFindings(slices))
      {
        NoConflictsBefore(slices, i);
        GatheredNext(findings, old(findings), i, ConflictFindings(slices));
        if slices[i].waveId == "" {
          continue;
        }
        DetectConflictsOf(slices, i);
      }
      GatheredAll(findings, old(findings), |slices|, ConflictFindings(slices));
    }

    method ReviewSlice(slice: Slice)
      requires Valid()
      modifies this
      ensures Valid() && findings == old(findings) + Gather(8, FieldFindingsAt(slice))
    {
      var fields := FieldChecks(slice);
      for k := 0 to |fields|
        invariant Valid() && findings == old(findings) + Gather(k, FieldFindingsAt(slice))
      {
        if fields[k].0 {
          continue;
        }
        Block(fields[k].1, slice.sliceId);
      }
    }

    method ValidateRequirementCoverage(slices: seq<Slice>, requirementIds: seq<string>)
      requires Valid()
      modifies this
      ensures Valid() && findings == old(findings) + Gather(|requirementIds|, CoverageFindings(slices, requirementIds))
    {
      var covered := set i, r | 0 <= i < |slices| && r in slices[i].requirementIds :: r;
      for i := 0 to |requirementIds|
        invariant Valid() && findings == old(findings) + Gather(i, CoverageFindings(slices, requirementIds))
      {
        assert Covered(slices, requirementIds[i]) <==> requirementIds[i] in covered;
        if requirementIds[i] !in covered {
          Block("uncovered_requirement", "");
        }
      }
    }
  }

  /** `collectWaveIDs`. */
  ghost predicate WavesOf(slices: seq<Slice>, waves: map<string, string>) {
    forall id :: (if id in waves then waves[id] else "") == WaveOf(slices, |slices|, id)
  }

  method CollectWaveIds(slices: seq<Slice>) returns (waves: map<string, string>)
    ensures WavesOf(slices, waves)
  {
    waves := map[];
    for i := 0 to |slices|
      invariant forall id :: (if id in waves then waves[id] else "") == WaveOf(slices, i, id)
    {
      if slices[i].sliceId == "" {
        continue;
      }
      waves := waves[slices[i].sliceId := slices[i].waveId];
    }
  }

  lemma IdSetGrows(slices: seq<Slice>, n: nat)
    requires n < |slices|
    ensures IdSet(slices, n + 1) == IdSet(slices, n) + (if slices[n].sliceId == "" then {} else {slices[n].sliceId})
  {
  }

  lemma EmptyUpTo(n: nat, f: nat -> seq<Finding>)
    requires forall k: nat | k < n :: f(k) == []
    ensures Gather(n, f) == []
  {
    GatherNothing(n, f);
  }

  /** `lowerSet` has the last ID for each lower-case spelling among the first `n` slices. */
  ghost predicate LowerTable(slices: seq<Slice>, n: nat, lowerSet: map<string, string>)
    requires n <= |slices|
  {
    forall lower :: LastAlike(slices, n, lower) == if lower in lowerSet then Some(lowerSet[lower]) else None
  }

  lemma LowerTableNext(slices: seq<Slice>, n: nat, lowerSet: map<string, string>)
    requires n < |slices| && LowerTable(slices, n, lowerSet)
    ensures var id := slices[n].sliceId; var lower := Lower(id);
            && LastAlike(slices, n, lower) == (if lower in lowerSet then Some(lowerSet[lower]) else None)
            && LowerTable(slices, n + 1, if id == "" then lowerSet else lowerSet[lower := id])
  {
    hide Lower;
  }

  lemma NoConflictsBefore(slices: seq<Slice>, i: nat)
    requires i < |slices|
    ensures Gather(i + 1, ConflictFindingsAt(slices, i)) == []
    ensures ConflictFindings(slices)(i) == Gather(|slices|, ConflictFindingsAt(slices, i))
    ensures slices[i].waveId == "" ==> ConflictFindings(slices)(i) == []
  {
    EmptyUpTo(i + 1, ConflictFindingsAt(slices, i));
    if slices[i].waveId == "" {
      hide ScopesOverlap;
      EmptyUpTo(|slices|, ConflictFindingsAt(slices, i));
    }
  }

  lemma ConflictAt(slices: seq<Slice>, i: nat, j: nat)
    requires i < j < |slices| && slices[i].waveId != ""
    ensures ConflictFindingsAt(slices, i)(j) ==
              if slices[i].waveId == slices[j].waveId && ScopesOverlap(slices[i].Scope(), slices[j].Scope())
              then [Finding("intra_wave_file_conflict", slices[i].sliceId)] else []
  {
    hide ScopesOverlap;
  }

  /** The edges recorded once the first `i` slices, and the first `k` dependencies of the next, have been looked at. */
  ghost predicate AddedEdge(slices: seq<Slice>, idSet: set<string>, i: nat, k: nat, a: string, b: string)
    requires i <= |slices| && (i < |slices| ==> k <= |slices[i].dependsOn|)
  {
    a != b && b in idSet
    && ((exists j :: 0 <= j < i && slices[j].sliceId == a && b in slices[j].dependsOn)
        || (i < |slices| && slices[i].sliceId == a && b in slices[i].dependsOn[..k]))
  }

  ghost predicate Added(adj: Graph, slices: seq<Slice>, idSet: set<string>, i: nat, k: nat)
    requires i <= |slices| && (i < |slices| ==> k <= |slices[i].dependsOn|)
  {
    forall a, b :: Edge(adj, a, b) <==> AddedEdge(slices, idSet, i, k, a, b)
  }

  lemma AddedNext(adj: Graph, slices: seq<Slice>, idSet: set<string>, i: nat, k: nat)
    requires i < |slices| && k < |slices[i].dependsOn| && Added(adj, slices, idSet, i, k)
    ensures var id, dep := slices[i].sliceId, slices[i].dependsOn[k];
            Added(if dep == id || dep !in idSet then adj else adj[id := (if id in adj then adj[id] else []) + [dep]],
                  slices, idSet, i, k + 1)
  {
    var id, dep, deps := slices[i].sliceId, slices[i].dependsOn[k], slices[i].dependsOn;
    assert deps[..k + 1] == deps[..k] + [dep];
    forall a, b ensures AddedEdge(slices, idSet, i, k + 1, a, b) <==>
        AddedEdge(slices, idSet, i, k, a, b) || (a == id && b == dep && a != b && b in idSet) {}
    hide AddedEdge;
    if dep != id && dep in idSet {
      var next := adj[id := (if id in adj then adj[id] else []) + [dep]];
      forall a, b ensures Edge(next, a, b) <==> AddedEdge(slices, idSet, i, k + 1, a, b) {
        assert Edge(next, a, b) <==> Edge(adj, a, b) || (a == id && b == dep);
      }
    }
  }

  lemma AddedAll(adj: Graph, slices: seq<Slice>, idSet: set<string>, i: nat)
    requires i < |slices| && Added(adj, slices, idSet, i, |slices[i].dependsOn|)
    ensures Added(adj, slices, idSet, i + 1, 0)
  {
    var deps := slices[i].dependsOn;
    assert deps[..|deps|] == deps;
    assert i + 1 < |slices| ==> slices[i + 1].dependsOn[..0] == [];
    forall a, b ensures AddedEdge(slices, idSet, i + 1, 0, a, b) <==> AddedEdge(slices, idSet, i, |deps|, a, b) {}
    hide AddedEdge;
  }

  lemma AddedEverything(slices: seq<Slice>)
    ensures forall adj :: Added(adj, slices, IdSet(slices, |slices|), |slices|, 0) ==> IsAdjacency(slices, adj)
  {
    hide IdSet;
    forall adj | Added(adj, slices, IdSet(slices, |slices|), |slices|, 0) ensures IsAdjacency(slices, adj) {
      forall a, b ensures Edge(adj, a, b) <==> KeptEdge(slices, a, b) {
        assert Edge(adj, a, b) <==> AddedEdge(slices, IdSet(slices, |slices|), |slices|, 0, a, b);
      }
    }
  }

  // ----- which plans pass -----

  function SliceGraph(slices: seq<Slice>): Graph {
    if slices == [] then map[]
    else SliceGraph(slices[..|slices| - 1])[slices[|slices| - 1].sliceId := slices[|slices| - 1].dependsOn]
  }

  predicate FieldsComplete(s: Slice) {
    && s.sliceId != "" && s.title != "" && s.goal != "" && s.requirementIds != [] && s.ownedPaths != []
    && s.acceptanceChecks != [] && IsValidRisk(s.risk) && IsValidSize(s.size)
  }

  /** IDs differ even in lower case. */
  ghost predicate DistinctSlices(slices: seq<Slice>) {
    forall i, j | 0 <= i < j < |slices| :: Lower(slices[i].sliceId) != Lower(slices[j].sliceId)
  }

  /** Two slices whose IDs are equal, or differ in the case of letters only, keep a plan from passing. */
  lemma CaseCollides(slices: seq<Slice>, requirementIds: seq<string>, i: nat, j: nat)
    requires i < j < |slices| && SameButCase(slices[i].sliceId, slices[j].sliceId)
    ensures !InGoodOrder(slices, requirementIds)
  {
    SameLowerIff(slices[i].sliceId, slices[j].sliceId);
    hide Lower;
  }

  /** Dependency `d` of slice `i` is another slice, not in the same named wave. */
  ghost predicate GoodDep(slices: seq<Slice>, i: nat, d: string)
    requires i < |slices|
  {
    exists j :: 0 <= j < |slices| && j != i && slices[j].sliceId == d
                && (slices[i].waveId == "" || slices[i].waveId != slices[j].waveId)
  }

  ghost predicate GoodDeps(slices: seq<Slice>, i: nat)
    requires i < |slices|
  {
    forall d | d in slices[i].dependsOn :: GoodDep(slices, i, d)
  }

  /** What the review promises about a plan: complete fields, distinct IDs, dependencies on slices of other waves with
      no cycle, no overlapping files within a wave, and every requirement in some slice. */
  ghost predicate InGoodOrder(slices: seq<Slice>, requirementIds: seq<string>) {
    && slices != []
    && (forall i | 0 <= i < |slices| :: FieldsComplete(slices[i]))
    && DistinctSlices(slices)
    && (forall i | 0 <= i < |slices| :: GoodDeps(slices, i))
    && Acyclic(SliceGraph(slices))
    && (forall i, j | 0 <= i < j < |slices| :: !SameWaveConflict(slices, i, j))
    && (forall r | r in requirementIds :: Covered(slices, r))
  }

  lemma FieldFindingNone(s: Slice)
    ensures Gather(8, FieldFindingsAt(s)) == [] <==> FieldsComplete(s)
  {
    var f, checks := FieldFindingsAt(s), FieldChecks(s);
    GatherNothing(8, f);
    assert FieldsComplete(s) <==> checks[0].0 && checks[1].0 && checks[2].0 && checks[3].0 && checks[4].0 && checks[5].0
                                  && checks[6].0 && checks[7].0;
    hide FieldChecks, FieldsComplete, Gather;
    assert |checks| == 8;
    assert forall k: nat | k < 8 :: f(k) == [] <==> checks[k].0;
  }

  lemma FieldFindingsAre(slices: seq<Slice>, i: nat)
    requires i < |slices|
    ensures FieldFindings(slices)(i) == Gather(8, FieldFindingsAt(slices[i]))
  {
    hide Gather, FieldFindingsAt;
  }

  lemma NoFieldFindings(slices: seq<Slice>)
    ensures Gather(|slices|, FieldFindings(slices)) == [] <==> forall i | 0 <= i < |slices| :: FieldsComplete(slices[i])
  {
    hide FieldsComplete, FieldFindings, Gather;
    GatherNothing(|slices|, FieldFindings(slices));
    forall i: nat | i < |slices| ensures FieldFindings(slices)(i) == [] <==> FieldsComplete(slices[i]) {
      FieldFindingsAre(slices, i);
      FieldFindingNone(slices[i]);
    }
  }

  ghost predicate ClearAfter(slices: seq<Slice>, i: nat)
    requires i < |slices|
  {
    forall j | i < j < |slices| :: !SameWaveConflict(slices, i, j)
  }

  lemma NoConflictsOf(slices: seq<Slice>, i: nat)
    requires i < |slices|
    ensures ConflictFindings(slices)(i) == [] <==> ClearAfter(slices, i)
  {
    hide SameWaveConflict, Gather;
    var f := ConflictFindingsAt(slices, i);
    GatherNothing(|slices|, f);
    if ConflictFindings(slices)(i) == [] {
      forall j | i < j < |slices| ensures !SameWaveConflict(slices, i, j) {
        assert f(j) == [];
      }
    }
  }

  lemma NoConflictFindings(slices: seq<Slice>)
    ensures Gather(|slices|, ConflictFindings(slices)) == [] <==>
            forall i, j | 0 <= i < j < |slices| :: !SameWaveConflict(slices, i, j)
  {
    hide SameWaveConflict, Gather, ConflictFindings;
    GatherNothing(|slices|, ConflictFindings(slices));
    forall i: nat | i < |slices| ensures ConflictFindings(slices)(i) == [] <==> ClearAfter(slices, i) {
      NoConflictsOf(slices, i);
    }
    if Gather(|slices|, ConflictFindings(slices)) == [] {
      forall i, j | 0 <= i < j < |slices| ensures !SameWaveConflict(slices, i, j) {
        assert ConflictFindings(slices)(i) == [];
      }
    }
  }

  lemma NoCoverageFindings(slices: seq<Slice>, ids: seq<string>)
    ensures Gather(|ids|, CoverageFindings(slices, ids)) == [] <==> forall r | r in ids :: Covered(slices, r)
  {
    hide Covered;
    GatherNothing(|ids|, CoverageFindings(slices, ids));
    if Gather(|ids|, CoverageFindings(slices, ids)) == [] {
      forall r | r in ids ensures Covered(slices, r) {
        var i :| 0 <= i < |ids| && ids[i] == r;
        assert CoverageFindings(slices, ids)(i) == [];
      }
    }
  }

  /** An ID is clear when no earlier one reads the same in lower case. */
  lemma IdFindingNone(slices: seq<Slice>, i: nat)
    requires i < |slices| && slices[i].sliceId != ""
    ensures IdFinding(slices, i) == [] <==>
            forall j | 0 <= j < i && slices[j].sliceId != "" :: Lower(slices[j].sliceId) != Lower(slices[i].sliceId)
  {
    var id := slices[i].sliceId;
    var last := LastAlike(slices, i, Lower(id));
    hide Lower;
    if last.Some? {
      var j :| 0 <= j < i && slices[j].sliceId != "" && slices[j].sliceId == last.value;
    }
    if id in IdSet(slices, i) {
      var j :| 0 <= j < i && slices[j].sliceId == id;
    }
  }

  lemma NoIdFindings(slices: seq<Slice>)
    requires forall i | 0 <= i < |slices| :: slices[i].sliceId != ""
    ensures Gather(|slices|, IdFindings(slices)) == [] <==> DistinctSlices(slices)
  {
    GatherNothing(|slices|, IdFindings(slices));
    forall i: nat | i < |slices|
      ensures IdFindings(slices)(i) == [] <==> forall j | 0 <= j < i ::
                Lower(slices[j].sliceId) != Lower(slices[i].sliceId)
    {
      IdFindingNone(slices, i);
    }
    hide IdFinding, Lower;
    if Gather(|slices|, IdFindings(slices)) == [] {
      forall i, j | 0 <= i < j < |slices| ensures Lower(slices[i].sliceId) != Lower(slices[j].sliceId) {
        assert IdFindings(slices)(j) == [];
      }
    }
  }

  lemma {:induction false} WaveOfDistinct(slices: seq<Slice>, n: nat, i: nat)
    requires i < n <= |slices| && DistinctSlices(slices) && slices[i].sliceId != ""
    ensures WaveOf(slices, n, slices[i].sliceId) == slices[i].waveId
  {
    if i < n - 1 {
      assert Lower(slices[i].sliceId) != Lower(slices[n - 1].sliceId);
      WaveOfDistinct(slices, n - 1, i);
    }
  }

  lemma DepFindingNone(slices: seq<Slice>, i: nat, k: nat)
    requires DistinctSlices(slices) && (forall i | 0 <= i < |slices| :: slices[i].sliceId != "")
    requires i < |slices| && k < |slices[i].dependsOn|
    ensures DepFinding(slices, i, k) == [] <==> GoodDep(slices, i, slices[i].dependsOn[k])
  {
    var id, d := slices[i].sliceId, slices[i].dependsOn[k];
    WaveOfDistinct(slices, |slices|, i);
    forall j | 0 <= j < |slices| && slices[j].sliceId == d
      ensures WaveOf(slices, |slices|, d) == slices[j].waveId && (j == i <==> d == id)
    {
      WaveOfDistinct(slices, |slices|, j);
      if j != i { assert Lower(slices[i].sliceId) != Lower(slices[j].sliceId); }
    }
    hide WaveOf, Lower;
    if d in IdSet(slices, |slices|) {
      var j :| 0 <= j < |slices| && slices[j].sliceId == d;
    }
  }

  lemma NoDepsOf(slices: seq<Slice>, i: nat)
    requires DistinctSlices(slices) && (forall i | 0 <= i < |slices| :: slices[i].sliceId != "")
    requires i < |slices|
    ensures DepFindings(slices)(i) == [] <==> GoodDeps(slices, i)
  {
    hide GoodDep, DepFinding, DistinctSlices, Gather;
    var deps, f := slices[i].dependsOn, DepFindingsAt(slices, i);
    GatherNothing(|deps|, f);
    forall k: nat | k < |deps| ensures f(k) == [] <==> GoodDep(slices, i, deps[k]) {
      DepFindingNone(slices, i, k);
    }
    if DepFindings(slices)(i) == [] {
      forall d | d in deps ensures GoodDep(slices, i, d) {
        var k :| 0 <= k < |deps| && deps[k] == d;
        assert f(k) == [];
      }
    }
  }

  lemma NoDepFindings(slices: seq<Slice>)
    requires DistinctSlices(slices) && (forall i | 0 <= i < |slices| :: slices[i].sliceId != "")
    ensures Gather(|slices|, DepFindings(slices)) == [] <==> forall i | 0 <= i < |slices| :: GoodDeps(slices, i)
  {
    hide GoodDeps, DepFindings, DistinctSlices, Gather;
    GatherNothing(|slices|, DepFindings(slices));
    forall i: nat | i < |slices| ensures DepFindings(slices)(i) == [] <==> GoodDeps(slices, i) {
      NoDepsOf(slices, i);
    }
  }

  lemma {:induction false} SliceGraphEdges(slices: seq<Slice>)
    requires DistinctSlices(slices)
    ensures forall a, b :: Edge(SliceGraph(slices), a, b) <==>
              exists i :: 0 <= i < |slices| && slices[i].sliceId == a && b in slices[i].dependsOn
  {
    hide Lower;
    if slices != [] {
      var front, last := slices[..|slices| - 1], slices[|slices| - 1];
      SliceGraphEdges(front);
      forall a, b ensures Edge(SliceGraph(slices), a, b) <==>
          exists i :: 0 <= i < |slices| && slices[i].sliceId == a && b in slices[i].dependsOn {
        if a == last.sliceId {
          assert b in last.dependsOn <==> Edge(SliceGraph(slices), a, b);
          forall i | 0 <= i < |slices| && slices[i].sliceId == a ensures i == |slices| - 1 {}
        } else {
          assert Edge(SliceGraph(slices), a, b) <==> Edge(SliceGraph(front), a, b);
          if i :| 0 <= i < |slices| && slices[i].sliceId == a && b in slices[i].dependsOn {
            assert front[i] == slices[i];
          }
          if i :| 0 <= i < |front| && front[i].sliceId == a && b in front[i].dependsOn { assert front[i] == slices[i]; }
        }
      }
    }
  }

  /** A walk is a walk in any graph with the same edges. */
  lemma SameEdgesReach(g: Graph, h: Graph, a: Id, b: Id)
    requires forall x, y :: Edge(g, x, y) <==> Edge(h, x, y)
    requires Reaches(g, a, b)
    ensures Reaches(h, a, b)
  {
    var p :| IsWalkBetween(g, p, a, b);
    assert IsWalkBetween(h, p, a, b) by {
      forall i | 0 <= i < |p| - 1 ensures Edge(h, p[i], p[i + 1]) {
        assert Edge(g, p[i], p[i + 1]);
      }
    }
  }

  /** When every dependency is good, the search looks at the whole graph, so it answers whether there is a cycle. */
  lemma NoCycleFinding(slices: seq<Slice>, adj: Graph, cycle: seq<Finding>)
    requires DistinctSlices(slices) && (forall i | 0 <= i < |slices| :: slices[i].sliceId != "")
    requires forall i | 0 <= i < |slices| :: GoodDeps(slices, i)
    requires IsAdjacency(slices, adj) && IsCycleFinding(slices, adj, cycle)
    ensures cycle == [] <==> Acyclic(SliceGraph(slices))
  {
    SliceGraphEdges(slices);
    var g := SliceGraph(slices);
    forall a, b ensures Edge(adj, a, b) <==> Edge(g, a, b) {
      GoodEdges(slices, a, b);
    }
    hide IsAdjacency, SliceGraph, Lower;
    if cycle == [] {
      var order :| Topological(adj, order)
                   && forall i | 0 <= i < |slices| && slices[i].sliceId != "" :: slices[i].sliceId in order;
      forall x ensures !Reaches(g, x, x) {
        if Reaches(g, x, x) {
          var p :| IsWalkBetween(g, p, x, x);
          assert Edge(g, p[0], p[1]);
          SameEdgesReach(g, adj, x, x);
          TopologicalNoCycle(adj, order, x);
          assert false;
        }
      }
    } else {
      SameEdgesReach(adj, g, cycle[0].sliceId, cycle[0].sliceId);
    }
  }

  lemma GoodEdges(slices: seq<Slice>, a: string, b: string)
    requires DistinctSlices(slices) && (forall i | 0 <= i < |slices| :: slices[i].sliceId != "")
    requires forall i | 0 <= i < |slices| :: GoodDeps(slices, i)
    ensures KeptEdge(slices, a, b) <==> exists i ::
              0 <= i < |slices| && slices[i].sliceId == a && b in slices[i].dependsOn
  {
    hide Lower;
    if i :| 0 <= i < |slices| && slices[i].sliceId == a && b in slices[i].dependsOn {
      assert GoodDeps(slices, i) && GoodDep(slices, i, b);
      var j :| 0 <= j < |slices| && j != i && slices[j].sliceId == b;
      assert b in IdSet(slices, |slices|);
      if a == b { assert Lower(slices[i].sliceId) == Lower(slices[j].sliceId); }
    }
  }

  /** The review finds nothing exactly in a plan in good order whose requirements could be read. */
  lemma NoFindingsIff(slices: seq<Slice>, requirementIds: Option<seq<string>>, findings: seq<Finding>)
    requires AreFindings(slices, requirementIds, findings)
    ensures findings == [] <==> requirementIds.Some? && InGoodOrder(slices, requirementIds.value)
  {
    hide FieldsComplete, GoodDeps, DistinctSlices, SameWaveConflict, Covered, IsAdjacency, IsCycleFinding, Acyclic;
    hide Gather;
    var adj, cycle :| IsAdjacency(slices, adj) && IsCycleFinding(slices, adj, cycle)
                      && findings == EarlyFindings(slices) + cycle + LateFindings(slices, requirementIds);
    assert findings == [] <==>
           slices != [] && Gather(|slices|, IdFindings(slices)) == [] && Gather(|slices|, DepFindings(slices)) == []
           && cycle == [] && Gather(|slices|, ConflictFindings(slices)) == []
           && Gather(|slices|, FieldFindings(slices)) == []
           && requirementIds.Some?
           && Gather(|requirementIds.value|, CoverageFindings(slices, requirementIds.value)) == [];
    NoFieldFindings(slices);
    NoConflictFindings(slices);
    if requirementIds.Some? { NoCoverageFindings(slices, requirementIds.value); }
    if forall i | 0 <= i < |slices| :: FieldsComplete(slices[i]) {
      assert forall i | 0 <= i < |slices| :: slices[i].sliceId != "" by {
        forall i | 0 <= i < |slices| ensures slices[i].sliceId != "" { CompleteHasId(slices[i]); }
      }
      NoIdFindings(slices);
      if DistinctSlices(slices) {
        NoDepFindings(slices);
        if forall i | 0 <= i < |slices| :: GoodDeps(slices, i) {
          NoCycleFinding(slices, adj, cycle);
        }
      }
    }
  }

  lemma CompleteHasId(s: Slice)
    requires FieldsComplete(s)
    ensures s.sliceId != ""
  {
  }

  lemma FindingsAssembled(slices: seq<Slice>, requirementIds: Option<seq<string>>, adj: Graph, cycle: seq<Finding>,
                          findings: seq<Finding>)
    requires IsAdjacency(slices, adj) && IsCycleFinding(slices, adj, cycle)
    requires findings == EarlyFindings(slices) + cycle + Gather(|slices|, ConflictFindings(slices))
                         + Gather(|slices|, FieldFindings(slices))
                         + match requirementIds
                           case None => [Finding("artifact_read_failure", "")]
                           case Some(ids) => Gather(|ids|, CoverageFindings(slices, ids))
    ensures AreFindings(slices, requirementIds, findings)
  {
    hide Gather, IsAdjacency, IsCycleFinding, EarlyFindings;
    assert findings == EarlyFindings(slices) + cycle + LateFindings(slices, requirementIds);
  }

  lemma NextFields(slices: seq<Slice>, i: nat)
    requires i < |slices|
    ensures Gather(i + 1, FieldFindings(slices)) ==
            Gather(i, FieldFindings(slices)) + Gather(8, FieldFindingsAt(slices[i]))
  {
  }

  /** `ReviewExecutionPlan`: the findings, and a pass exactly for the plans in good order. */
  method ReviewExecutionPlan(slices: seq<Slice>, requirementIds: Option<seq<string>>) returns (review: PlanReview)
    ensures fresh(review) && review.Valid() && AreFindings(slices, requirementIds, review.findings)
    ensures review.pass <==> requirementIds.Some? && InGoodOrder(slices, requirementIds.value)
  {
    hide AreFindings, InGoodOrder, IsAdjacency, IsCycleFinding, IdSet, WavesOf, Gather;
    review := new PlanReview();
    if |slices| == 0 {
      review.Block("missing_slices", "");
    }
    var idSet := review.ValidateSliceIds(slices);
    var waves := CollectWaveIds(slices);
    var adj := review.ValidateSliceDeps(slices, idSet, waves);
    assert review.findings == EarlyFindings(slices);
    ghost var cycle := review.DetectSliceCycles(slices, adj);
    review.DetectIntraWaveConflicts(slices);
    ghost var upTo := review.findings;
    assert Gather(0, FieldFindings(slices)) == [] by { EmptyUpTo(0, FieldFindings(slices)); }
    for i := 0 to |slices|
      invariant review.Valid() && fresh(review) && review.findings == upTo + Gather(i, FieldFindings(slices))
    {
      NextFields(slices, i);
      review.ReviewSlice(slices[i]);
    }
    match requirementIds {
      case Some(ids) => review.ValidateRequirementCoverage(slices, ids);
      case None => review.Block("artifact_read_failure", "");
    }
    FindingsAssembled(slices, requirementIds, adj, cycle, review.findings);
    NoFindingsIff(slices, requirementIds, review.findings);
  }
}

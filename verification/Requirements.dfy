/** Compiling requirements into one task each, independently of the order they are given in. */
module Requirements {
  import opened Sorting
  import opened Strings
  import opened Graphs
  import opened Tasks

  /** `inferredPaths` is what the keyword table makes of the requirement's text. */
  datatype Requirement =
    Requirement(id: string, text: string, sourceSpec: string, sourceLine: int, inferredPaths: seq<string>)

  // ----- requirementLess -----

  /** The part of an ID before its second dash. */
  function Family(id: string): string {
    var first := Index(id, "-");
    if first < 0 then id
    else
      var second := IndexFrom(id, "-", first + 1);
      if second < 0 then id else id[..second]
  }

  function Lane(r: Requirement): string {
    r.sourceSpec + ":" + Family(r.id)
  }

  ghost predicate NoDash(s: string) {
    forall i | 0 <= i < |s| :: s[i] != '-'
  }

  lemma NoDashNowhere(s: string, from: nat)
    requires from <= |s| + 1 && forall i | from <= i < |s| :: s[i] != '-'
    ensures IndexFrom(s, "-", from) == -1
  {
    forall r | from <= r < |s| ensures !OccursAt(s, "-", r) {
      assert s[r..r + 1][0] == s[r];
    }
  }

  lemma FirstDash(s: string, from: nat, at: nat)
    requires from <= at < |s| && s[at] == '-' && forall i | from <= i < at :: s[i] != '-'
    ensures IndexFrom(s, "-", from) == at
  {
    assert s[at..at + 1] == "-";
    assert OccursAt(s, "-", at);
    var r := IndexFrom(s, "-", from);
    assert s[r..r + 1][0] == s[r];
  }

  /** The family is what stands before the second dash, and all of an ID with fewer dashes. */
  lemma FamilyIs(a: string, b: string, c: string)
    requires NoDash(a) && NoDash(b)
    ensures Family(a + "-" + b + "-" + c) == a + "-" + b
    ensures Family(a + "-" + b) == a + "-" + b && Family(a) == a
  {
    var s, t := a + "-" + b + "-" + c, a + "-" + b;
    FirstDash(s, 0, |a|);
    FirstDash(s, |a| + 1, |a| + 1 + |b|);
    FirstDash(t, 0, |a|);
    NoDashNowhere(t, |a| + 1);
    NoDashNowhere(a, 0);
  }

  /** Lanes are those of a specification and family. */
  lemma LaneIff(x: Requirement, y: Requirement)
    requires forall c | c in Family(x.id) || c in Family(y.id) :: c != ':'
    ensures Lane(x) == Lane(y) <==> x.sourceSpec == y.sourceSpec && Family(x.id) == Family(y.id)
  {
    hide Family;
    var f, g := Family(x.id), Family(y.id);
    if Lane(x) == Lane(y) {
      LastColon(x.sourceSpec, f);
      LastColon(y.sourceSpec, g);
      assert |x.sourceSpec| == |y.sourceSpec|;
      assert x.sourceSpec == Lane(x)[..|x.sourceSpec|] && f == Lane(x)[|x.sourceSpec| + 1..];
      assert y.sourceSpec == Lane(y)[..|y.sourceSpec|] && g == Lane(y)[|y.sourceSpec| + 1..];
    }
  }

  lemma LastColon(a: string, f: string)
    requires forall c | c in f :: c != ':'
    ensures var w := a + ":" + f; w[|a|] == ':' && forall i | |a| < i < |w| :: w[i] != ':'
  {
    var w := a + ":" + f;
    forall i | |a| < i < |w| ensures w[i] != ':' {
      assert w[i] == f[i - |a| - 1] && f[i - |a| - 1] in f;
    }
  }

  predicate RequirementLess(left: Requirement, right: Requirement) {
    if left.sourceSpec != right.sourceSpec then Less(left.sourceSpec, right.sourceSpec)
    else if Lane(left) != Lane(right) then Less(Lane(left), Lane(right))
    else if left.sourceLine > 0 && right.sourceLine > 0 && left.sourceLine != right.sourceLine
    then left.sourceLine < right.sourceLine
    else Less(left.id, right.id)
  }

  ghost predicate DistinctIds(reqs: seq<Requirement>) {
    forall i, j | 0 <= i < j < |reqs| :: reqs[i].id != reqs[j].id
  }

  predicate SameLane(x: Requirement, y: Requirement) {
    x.sourceSpec == y.sourceSpec && Lane(x) == Lane(y)
  }

  /** Two requirements of one specification and ID have lines that tell them apart. */
  predicate ToldApart(x: Requirement, y: Requirement) {
    x.sourceSpec == y.sourceSpec && x.id == y.id && x != y ==>
      x.sourceLine > 0 && y.sourceLine > 0 && x.sourceLine != y.sourceLine
  }

  /** A requirement without a line whose ID falls between those of two lined ones in the wrong order. */
  predicate Inverted(x: Requirement, y: Requirement, z: Requirement) {
    && SameLane(x, y) && SameLane(x, z)
    && x.sourceLine > 0 && y.sourceLine > 0 && z.sourceLine <= 0
    && Less(x.id, z.id) && Less(z.id, y.id) && x.sourceLine > y.sourceLine
  }

  /** What the comparison needs of a list to order it. */
  ghost predicate Orderable(reqs: seq<Requirement>) {
    && (forall x, y {:trigger ToldApart(x, y)} | x in reqs && y in reqs :: ToldApart(x, y))
    && (forall x, y, z {:trigger Inverted(x, y, z)} | x in reqs && y in reqs && z in reqs :: !Inverted(x, y, z))
  }

  lemma LessChains(a: string, b: string, c: string)
    ensures Less(a, b) && Less(b, c) ==> Less(a, c) && a != c
  {
    if Less(a, b) && Less(b, c) {
      LessTransitive(a, b, c);
      LessIrreflexive(a);
    }
  }

  lemma LessTrichotomy(a: string, b: string)
    ensures a == b || Less(a, b) || Less(b, a)
    ensures !(Less(a, b) && Less(b, a)) && (a == b ==> !Less(a, b))
  {
    LessIrreflexive(a);
    if a != b { LessTotal(a, b); }
    LessChains(a, b, a);
  }

  /** Within one lane only an inversion breaks transitivity. */
  lemma LaneTransitive(x: Requirement, y: Requirement, z: Requirement)
    requires SameLane(x, y) && SameLane(y, z) && ToldApart(x, z)
    requires RequirementLess(x, y) && RequirementLess(y, z)
    ensures x != z && (RequirementLess(x, z) || Inverted(x, z, y) || Inverted(y, x, z) || Inverted(z, y, x))
  {
    hide Less, Lane;
    LessTrichotomy(x.id, y.id);
    LessTrichotomy(x.id, z.id);
    LessTrichotomy(y.id, z.id);
    LessChains(x.id, y.id, z.id);
    LessChains(y.id, z.id, x.id);
    LessChains(z.id, x.id, y.id);
  }

  lemma RequirementLessTransitive(x: Requirement, y: Requirement, z: Requirement)
    requires ToldApart(x, z) && RequirementLess(x, y) && RequirementLess(y, z)
    ensures RequirementLess(x, z) || Inverted(x, z, y) || Inverted(y, x, z) || Inverted(z, y, x)
  {
    hide Less, Lane, Inverted, ToldApart;
    if SameLane(x, y) && SameLane(y, z) {
      LaneTransitive(x, y, z);
    } else {
      LessChains(x.sourceSpec, y.sourceSpec, z.sourceSpec);
      LessChains(Lane(x), Lane(y), Lane(z));
    }
  }

  /** An inversion makes the comparison run in a circle. */
  lemma InvertedIsACircle(x: Requirement, y: Requirement, z: Requirement)
    requires Inverted(x, y, z)
    ensures RequirementLess(x, z) && RequirementLess(z, y) && RequirementLess(y, x)
  {
    hide Less, Lane;
  }

  lemma EitherWay(x: Requirement, y: Requirement)
    ensures !RequirementLess(x, x)
    ensures x != y ==> (ToldApart(x, y) <==> RequirementLess(x, y) || RequirementLess(y, x))
  {
    LessTrichotomy(x.sourceSpec, y.sourceSpec);
    LessTrichotomy(Lane(x), Lane(y));
    LessTrichotomy(x.id, y.id);
    LessTrichotomy(x.id, x.id);
    hide Less, Family;
  }

  /** `requirementLess` orders a list strictly and totally exactly when lines tell equal IDs apart and no requirement
      without a line has its ID between those of two lined ones of its lane in the wrong order. */
  lemma RequirementLessIsTotalIff(reqs: seq<Requirement>)
    ensures StrictTotalOn(RequirementLess, multiset(reqs)) <==> Orderable(reqs)
  {
    if Orderable(reqs) { OrderableIsTotal(reqs); }
    if StrictTotalOn(RequirementLess, multiset(reqs)) { TotalIsOrderable(reqs); }
  }

  lemma OrderableIsTotal(reqs: seq<Requirement>)
    requires Orderable(reqs)
    ensures StrictTotalOn(RequirementLess, multiset(reqs))
  {
    hide RequirementLess, ToldApart, Inverted;
    var s := multiset(reqs);
    forall x | x in s ensures !RequirementLess(x, x) {
      EitherWay(x, x);
    }
    forall x, y | x in s && y in s && x != y ensures RequirementLess(x, y) || RequirementLess(y, x) {
      assert x in reqs && y in reqs;
      EitherWay(x, y);
    }
    forall x, y, z | x in s && y in s && z in s && RequirementLess(x, y) && RequirementLess(y, z)
      ensures RequirementLess(x, z)
    {
      assert x in reqs && y in reqs && z in reqs;
      RequirementLessTransitive(x, y, z);
    }
  }

  lemma TotalIsOrderable(reqs: seq<Requirement>)
    requires StrictTotalOn(RequirementLess, multiset(reqs))
    ensures Orderable(reqs)
  {
    hide RequirementLess, Inverted;
    var s := multiset(reqs);
    forall x, y | x in reqs && y in reqs ensures ToldApart(x, y) {
      assert x in s && y in s;
      EitherWay(x, y);
    }
    forall x, y, z | x in reqs && y in reqs && z in reqs ensures !Inverted(x, y, z) {
      assert x in s && y in s && z in s;
      if Inverted(x, y, z) {
        InvertedIsACircle(x, y, z);
      }
    }
  }

  /** Such a circle: lined, unlined, lined. */
  lemma MixedLinesFormACircle()
    ensures var a := Requirement("R-1-b", "", "s", 2, []);
            var b := Requirement("R-1-c", "", "s", 0, []);
            var c := Requirement("R-1-d", "", "s", 1, []);
            Inverted(a, c, b) && RequirementLess(a, b) && RequirementLess(b, c) && RequirementLess(c, a)
  {
    var a := Requirement("R-1-b", "", "s", 2, []);
    var b := Requirement("R-1-c", "", "s", 0, []);
    var c := Requirement("R-1-d", "", "s", 1, []);
    hide Family, Less, RequirementLess;
    assert a.id == "R-1-" + ['b'] && b.id == "R-1-" + ['c'] && c.id == "R-1-" + ['d'];
    FamilyOfThree('b');
    FamilyOfThree('c');
    FamilyOfThree('d');
    SharedPrefixLess("R-1-", 'b', 'c');
    SharedPrefixLess("R-1-", 'c', 'd');
    InvertedIsACircle(a, c, b);
  }

  /** `sort.Slice`: some arrangement, and a sorted one when the comparison orders the list. */
  ghost predicate Arranged(reqs: seq<Requirement>, arranged: seq<Requirement>) {
    && multiset(arranged) == multiset(reqs)
    && (Orderable(reqs) ==> SortedBy(RequirementLess, arranged))
  }

  /** A list that can be ordered has one arrangement, however it is given. */
  lemma OneArrangement(a: seq<Requirement>, b: seq<Requirement>, s: seq<Requirement>, t: seq<Requirement>)
    requires multiset(a) == multiset(b) && Orderable(a) && Arranged(a, s) && Arranged(b, t)
    ensures s == t
  {
    hide RequirementLess;
    RequirementLessIsTotalIff(a);
    RequirementLessIsTotalIff(b);
    hide Orderable;
    SortedUnique(RequirementLess, s, t);
  }

  /** What sorted means: by specification, then by family, then by line where both have different ones, and otherwise
      by ID. */
  lemma ArrangedInOrder(reqs: seq<Requirement>, arranged: seq<Requirement>, i: nat, j: nat)
    requires Arranged(reqs, arranged) && Orderable(reqs) && i < j < |arranged|
    ensures var x, y := arranged[i], arranged[j];
            && !Less(y.sourceSpec, x.sourceSpec)
            && (x.sourceSpec == y.sourceSpec ==> !Less(Family(y.id), Family(x.id)))
            && (x.sourceSpec == y.sourceSpec && Family(x.id) == Family(y.id) ==>
                  if x.sourceLine > 0 && y.sourceLine > 0 && x.sourceLine != y.sourceLine
                  then x.sourceLine < y.sourceLine
                  else !Less(y.id, x.id))
  {
    hide Less, Family, Orderable;
    var x, y := arranged[i], arranged[j];
    assert !RequirementLess(y, x);
    LessIrreflexive(x.sourceSpec);
    LessIrreflexive(Lane(x));
    LessBehind(x.sourceSpec + ":", Family(y.id), Family(x.id));
    LessIrreflexive(Family(x.id));
  }

  lemma FamilyOfThree(ch: char)
    requires ch != '-'
    ensures Family("R-1-" + [ch]) == "R-1"
  {
    var id := "R-1-" + [ch];
    assert OccursAt(id, "-", 1) && OccursAt(id, "-", 3);
    assert id[0..1][0] == 'R' && id[2..3][0] == '1';
    assert Index(id, "-") == 1;
    assert IndexFrom(id, "-", 2) == 3;
  }

  lemma {:induction false} SharedPrefixLess(prefix: string, a: char, b: char)
    requires a < b
    ensures Less(prefix + [a], prefix + [b])
  {
    if prefix != "" {
      assert (prefix + [a])[1..] == prefix[1..] + [a] && (prefix + [b])[1..] == prefix[1..] + [b];
      SharedPrefixLess(prefix[1..], a, b);
    }
  }

  // ----- risk and evidence tables -----

  function ClassifyRisk(text: string): string {
    var t := Lower(text);
    if Contains(t, "must not") || Contains(t, "security") then "high"
    else if Contains(t, "must") then "medium"
    else "low"
  }

  function InferEvidence(text: string): (r: seq<string>)
    ensures r != []
  {
    var t := Lower(text);
    var found := (if Contains(t, "file") || Contains(t, "artifact") then ["file_exists"] else [])
                 + (if Contains(t, "test") then ["test_pass"] else []);
    if found == [] then ["quality_gate_pass"] else found
  }

  /** The evidence any requirement of the group calls for, each kind once and in string order. */
  function EvidenceForGroup(reqs: seq<Requirement>): seq<string> {
    var needs := (kind: string) => exists i | 0 <= i < |reqs| :: kind in InferEvidence(reqs[i].text);
    (if needs("file_exists") then ["file_exists"] else [])
    + (if needs("quality_gate_pass") then ["quality_gate_pass"] else [])
    + (if needs("test_pass") then ["test_pass"] else [])
  }

  /** High when the text forbids or speaks of security, else medium when it demands, else low, in any case of
      letters. */
  lemma RiskIs(text: string)
    ensures ClassifyRisk(text) == "high" <==> Says(text, "must not") || Says(text, "security")
    ensures ClassifyRisk(text) == "medium" <==> ClassifyRisk(text) != "high" && Says(text, "must")
    ensures ClassifyRisk(text) == "low" <==> ClassifyRisk(text) != "high" && ClassifyRisk(text) != "medium"
  {
    hide Contains, Says, Lower;
    SaysIff(text, "must not");
    SaysIff(text, "security");
    SaysIff(text, "must");
    assert "high"[0] == 'h' && "medium"[0] == 'm' && "low"[0] == 'l';
  }

  lemma EvidenceIs(text: string)
    ensures "file_exists" in InferEvidence(text) <==> Says(text, "file") || Says(text, "artifact")
    ensures "test_pass" in InferEvidence(text) <==> Says(text, "test")
    ensures "quality_gate_pass" in InferEvidence(text) <==>
              !Says(text, "file") && !Says(text, "artifact") && !Says(text, "test")
    ensures forall e | e in InferEvidence(text) :: e in ["file_exists", "quality_gate_pass", "test_pass"]
  {
    hide Contains, Says, Lower;
    SaysIff(text, "file");
    SaysIff(text, "artifact");
    SaysIff(text, "test");
    assert "file_exists"[0] == 'f' && "test_pass"[0] == 't' && "quality_gate_pass"[0] == 'q';
  }

  /** The kinds any member calls for, in string order, each once. */
  lemma GroupEvidenceIs(reqs: seq<Requirement>)
    ensures forall e :: e in EvidenceForGroup(reqs) <==> exists i :: 0 <= i < |reqs| && e in InferEvidence(reqs[i].text)
    ensures forall i, j | 0 <= i < j < |EvidenceForGroup(reqs)| ::
              Less(EvidenceForGroup(reqs)[i], EvidenceForGroup(reqs)[j])
  {
    hide InferEvidence;
    forall i | 0 <= i < |reqs|
      ensures forall e | e in InferEvidence(reqs[i].text) :: e in ["file_exists", "quality_gate_pass", "test_pass"]
    {
      EvidenceIs(reqs[i].text);
    }
    assert "file_exists"[0] == 'f' && "test_pass"[0] == 't' && "quality_gate_pass"[0] == 'q';
  }

  const DEFAULT_PATH := "internal/engine"

  // ----- Compile -----

  function TaskIdOf(reqId: string): Id {
    "task-" + Lower(reqId)
  }

  /** The task of the latest earlier requirement in the same lane. */
  function LaneDeps(reqs: seq<Requirement>, lane: string): seq<Id> {
    if reqs == [] then []
    else if Lane(reqs[|reqs| - 1]) == lane then [TaskIdOf(reqs[|reqs| - 1].id)]
    else LaneDeps(reqs[..|reqs| - 1], lane)
  }

  function TaskOf(r: Requirement, dependsOn: seq<Id>): Task {
    Task(TaskIdOf(r.id), [r.id], dependsOn, if r.inferredPaths == [] then [DEFAULT_PATH] else r.inferredPaths, [], [],
         "Implement " + r.id, ClassifyRisk(r.text), InferEvidence(r.text))
  }

  /** One task per requirement, chained along each lane. */
  function TasksOf(reqs: seq<Requirement>): (r: seq<Task>)
    ensures |r| == |reqs|
  {
    if reqs == [] then []
    else
      var front, last := reqs[..|reqs| - 1], reqs[|reqs| - 1];
      TasksOf(front) + [TaskOf(last, LaneDeps(front, Lane(last)))]
  }

  /** `tasks` are what `Compile` makes of some arrangement of the requirements. */
  ghost predicate CompiledTo(reqs: seq<Requirement>, tasks: seq<Task>) {
    exists arranged :: Arranged(reqs, arranged) && tasks == TasksOf(arranged)
  }

  datatype Coverage = Coverage(requirementId: string, coveringTaskIds: seq<Id>)
  datatype CompileError = NoRequirements | NoSlices | UnknownRequirement(id: string)
  datatype Compiled = Compiled(tasks: seq<Task>, coverage: seq<Coverage>)
  datatype CompileResult = Success(value: Compiled) | Failure(error: CompileError)

  /** One entry per time `reqId` is listed. */
  function Repeat(reqIds: seq<string>, reqId: string, taskId: Id): seq<Id> {
    if reqIds == [] then []
    else Repeat(reqIds[..|reqIds| - 1], reqId, taskId) + (if reqIds[|reqIds| - 1] == reqId then [taskId] else [])
  }

  function Covering(tasks: seq<Task>, reqId: string): seq<Id> {
    if tasks == [] then []
    else
      var last := tasks[|tasks| - 1];
      Covering(tasks[..|tasks| - 1], reqId) + Repeat(last.requirementIds, reqId, last.id)
  }

  /** Coverage is complete and tells the truth: one entry per requirement named by a task, in ID order,
      with the tasks that name it. */
  ghost predicate IsCoverage(tasks: seq<Task>, coverage: seq<Coverage>) {
    && (forall i, j | 0 <= i < j < |coverage| :: Less(coverage[i].requirementId, coverage[j].requirementId))
    && (forall i | 0 <= i < |coverage| ::
          coverage[i].coveringTaskIds == Covering(tasks, coverage[i].requirementId) != [])
    && (forall r | Covering(tasks, r) != [] :: exists i :: 0 <= i < |coverage| && coverage[i].requirementId == r)
  }

  /** Two coverages of the same tasks are the same list. */
  lemma CoverageUnique(tasks: seq<Task>, a: seq<Coverage>, b: seq<Coverage>)
    requires IsCoverage(tasks, a) && IsCoverage(tasks, b)
    ensures a == b
  {
    hide IsCoverage, Less;
    var ra, rb := CoveredIds(a), CoveredIds(b);
    forall r ensures r in ra <==> r in rb {
      CoveredIff(tasks, a, r);
      CoveredIff(tasks, b, r);
    }
    IncreasingUnique(ra, rb) by { CoverageIncreases(tasks, a); CoverageIncreases(tasks, b); }
    forall i | 0 <= i < |a| ensures a[i] == b[i] {
      assert ra[i] == rb[i];
      EntryOf(tasks, a, i);
      EntryOf(tasks, b, i);
    }
  }

  ghost function CoveredIds(a: seq<Coverage>): seq<string> {
    seq(|a|, i requires 0 <= i < |a| => a[i].requirementId)
  }

  lemma CoverageIncreases(tasks: seq<Task>, a: seq<Coverage>)
    requires IsCoverage(tasks, a)
    ensures forall i, j | 0 <= i < j < |a| :: Less(CoveredIds(a)[i], CoveredIds(a)[j])
  {
    hide Less, Covering;
  }

  lemma CoveredIff(tasks: seq<Task>, a: seq<Coverage>, r: string)
    requires IsCoverage(tasks, a)
    ensures r in CoveredIds(a) <==> Covering(tasks, r) != []
  {
    hide Less, Covering;
    if Covering(tasks, r) != [] {
      var i :| 0 <= i < |a| && a[i].requirementId == r;
      assert CoveredIds(a)[i] == r;
    }
  }

  lemma EntryOf(tasks: seq<Task>, a: seq<Coverage>, i: nat)
    requires IsCoverage(tasks, a) && i < |a|
    ensures a[i] == Coverage(CoveredIds(a)[i], Covering(tasks, CoveredIds(a)[i]))
  {
    hide Less, Covering;
  }

  lemma {:induction false} IncreasingUnique(a: seq<string>, b: seq<string>)
    requires forall i, j | 0 <= i < j < |a| :: Less(a[i], a[j])
    requires forall i, j | 0 <= i < j < |b| :: Less(b[i], b[j])
    requires forall r :: r in a <==> r in b
    ensures a == b
  {
    assert a != [] ==> a[0] in b;
    assert b != [] ==> b[0] in a;
    if a != [] {
      var j :| 0 <= j < |b| && b[j] == a[0];
      var i :| 0 <= i < |a| && a[i] == b[0];
      forall x: string, y: string | Less(x, y) ensures !Less(y, x) {
        if Less(y, x) { LessTransitive(x, y, x); LessIrreflexive(x); }
      }
      forall x: string ensures !Less(x, x) { LessIrreflexive(x); }
      assert i == 0 && j == 0;
      forall r ensures r in a[1..] <==> r in b[1..] {
        if k :| 0 <= k < |a[1..]| && a[1..][k] == r { assert a[k + 1] in a; }
        if k :| 0 <= k < |b[1..]| && b[1..][k] == r { assert b[k + 1] in b; }
      }
      IncreasingUnique(a[1..], b[1..]);
      assert a == [a[0]] + a[1..] && b == [b[0]] + b[1..];
    }
  }
}

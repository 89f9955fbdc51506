/** Finding the file conflicts of one wave, and choosing the task that must leave it. */
module Conflicts {
  import opened Strings
  import opened Graphs
  import opened Paths
  import opened Tasks

  datatype FileConflict = FileConflict(filePath: string, taskA: Id, taskB: Id)

  /** Two different tasks of the table touch overlapping files. */
  ghost predicate Rival(taskMap: map<Id, Task>, x: Id, y: Id) {
    x != y && x in taskMap && y in taskMap && Clash(taskMap[x], taskMap[y])
  }

  /** The members of a wave that cannot share it with `x`. */
  ghost function Rivals(members: set<Id>, taskMap: map<Id, Task>, x: Id): set<Id> {
    set y | y in members && Rival(taskMap, x, y)
  }

  ghost predicate ConflictFree(members: set<Id>, taskMap: map<Id, Task>) {
    forall x, y | x in members && y in members :: !Rival(taskMap, x, y)
  }

  /** Every task is filed under its own ID. */
  ghost predicate Filed(taskMap: map<Id, Task>) {
    forall id | id in taskMap :: taskMap[id].id == id
  }

  lemma RivalSymmetric(taskMap: map<Id, Task>, x: Id, y: Id)
    ensures Rival(taskMap, x, y) == Rival(taskMap, y, x)
  {
    if x in taskMap && y in taskMap {
      ClashSymmetric(taskMap[x], taskMap[y]);
    }
  }

  /** All the names of a conflict list, with repetitions. */
  function NamesOf(conflicts: seq<FileConflict>): multiset<Id> {
    if conflicts == [] then multiset{}
    else
      var last := conflicts[|conflicts| - 1];
      NamesOf(conflicts[..|conflicts| - 1]) + multiset{last.taskA} + multiset{last.taskB}
  }

  lemma NamesOfAppend(conflicts: seq<FileConflict>, c: FileConflict)
    ensures NamesOf(conflicts + [c]) == NamesOf(conflicts) + multiset{c.taskA} + multiset{c.taskB}
  {
    assert (conflicts + [c])[..|conflicts|] == conflicts;
  }

  /** The double loop visits the pair of positions `p`, `q` before the pair `(i, j)`. */
  predicate Visited(p: nat, q: nat, i: nat, j: nat) {
    if p < q then p < i || (p == i && q < j) else q < p && (q < i || (q == i && p < j))
  }

  /** Which positions of a wave hold rivals. */
  ghost function RivalAt(ids: seq<Id>, taskMap: map<Id, Task>): (nat, nat) -> bool {
    (p: nat, q: nat) => p < |ids| && q < |ids| && Rival(taskMap, ids[p], ids[q])
  }

  /** Positions related to `p` that the double loop has met with it before `(i, j)`. */
  ghost function Met(n: nat, rel: (nat, nat) -> bool, p: nat, i: nat, j: nat): set<nat> {
    set q: nat | q < n && Visited(p, q, i, j) && rel(p, q)
  }

  lemma MetStep(n: nat, rel: (nat, nat) -> bool, p: nat, i: nat, j: nat)
    requires p < n && i < j < n && rel(i, j) == rel(j, i)
    ensures |Met(n, rel, p, i, j + 1)| == |Met(n, rel, p, i, j)| + (if rel(i, j) && (p == i || p == j) then 1 else 0)
  {
    var before, after := Met(n, rel, p, i, j), Met(n, rel, p, i, j + 1);
    var other := if p == i then j else i;
    if rel(i, j) && (p == i || p == j) {
      assert after == before + {other} && other !in before;
    } else {
      assert after == before;
    }
  }

  lemma {:induction false} SameSize(ids: seq<Id>, positions: set<nat>, members: set<Id>)
    requires forall a, b | 0 <= a < b < |ids| :: ids[a] != ids[b]
    requires forall q | q in positions :: q < |ids| && ids[q] in members
    requires forall y | y in members :: exists q :: q in positions && ids[q] == y
    ensures |positions| == |members|
  {
    if positions == {} {
      assert members == {};
    } else {
      var q :| q in positions;
      var rest := members - {ids[q]};
      forall y | y in rest ensures exists k :: k in positions - {q} && ids[k] == y {
        var k :| k in positions && ids[k] == y;
        assert k in positions - {q};
      }
      SameSize(ids, positions - {q}, rest);
    }
  }

  lemma MetAll(ids: seq<Id>, taskMap: map<Id, Task>, p: nat)
    requires forall a, b | 0 <= a < b < |ids| :: ids[a] != ids[b]
    requires p < |ids|
    ensures |Met(|ids|, RivalAt(ids, taskMap), p, |ids|, |ids| + 1)| == |Rivals(SetOf(ids), taskMap, ids[p])|
  {
    var positions := Met(|ids|, RivalAt(ids, taskMap), p, |ids|, |ids| + 1);
    var members := Rivals(SetOf(ids), taskMap, ids[p]);
    forall y | y in members ensures exists q :: q in positions && ids[q] == y {
      var q :| 0 <= q < |ids| && ids[q] == y;
      assert q in positions;
    }
    SameSize(ids, positions, members);
  }

  /** `path` is the conflict path of two tasks of the table. */
  ghost predicate IsConflictPath(taskMap: map<Id, Task>, x: Id, y: Id, path: string) {
    x in taskMap && y in taskMap
    && Reported(ConflictPaths(taskMap[x].Scope()), ConflictPaths(taskMap[y].Scope()), Some(path))
  }

  /** Every conflict of the list is a real one, between two tasks of the wave, on the path of theirs. */
  ghost predicate Genuine(conflicts: seq<FileConflict>, ids: seq<Id>, taskMap: map<Id, Task>) {
    forall c | c in conflicts :: c.taskA in ids && c.taskB in ids && Rival(taskMap, c.taskA, c.taskB)
                                 && IsConflictPath(taskMap, c.taskA, c.taskB, c.filePath)
  }

  /** Each task is named as often as the double loop has met it with a rival before `(i, j)`. */
  ghost predicate CountedBefore(names: multiset<Id>, ids: seq<Id>, rel: (nat, nat) -> bool, i: nat, j: nat) {
    forall p: nat | p < |ids| :: names[ids[p]] == |Met(|ids|, rel, p, i, j)|
  }

  lemma CountedStep(names: multiset<Id>, ids: seq<Id>, rel: (nat, nat) -> bool, i: nat, j: nat)
    requires forall a, b | 0 <= a < b < |ids| :: ids[a] != ids[b]
    requires i < j < |ids| && CountedBefore(names, ids, rel, i, j) && rel(i, j) == rel(j, i)
    ensures rel(i, j) ==> CountedBefore(names + multiset{ids[i]} + multiset{ids[j]}, ids, rel, i, j + 1)
    ensures !rel(i, j) ==> CountedBefore(names, ids, rel, i, j + 1)
  {
    forall p: nat | p < |ids|
      ensures |Met(|ids|, rel, p, i, j + 1)| ==
              |Met(|ids|, rel, p, i, j)| + (if rel(i, j) && (p == i || p == j) then 1 else 0)
    {
      MetStep(|ids|, rel, p, i, j);
    }
  }

  lemma CountedRow(names: multiset<Id>, ids: seq<Id>, rel: (nat, nat) -> bool, i: nat)
    requires i < |ids| && CountedBefore(names, ids, rel, i, |ids|)
    ensures CountedBefore(names, ids, rel, i + 1, i + 2)
  {
    forall p: nat | p < |ids|
      ensures Met(|ids|, rel, p, i, |ids|) == Met(|ids|, rel, p, i + 1, i + 2)
    {
    }
  }

  /** One pair of the double loop. */
  method DetectPair(conflicts: seq<FileConflict>, ids: seq<Id>, i: nat, j: nat, taskMap: map<Id, Task>)
    returns (r: seq<FileConflict>)
    requires Filed(taskMap) && i < |ids| && j < |ids| && ids[i] != ids[j]
    ensures Rival(taskMap, ids[i], ids[j]) ==>
              exists path :: IsConflictPath(taskMap, ids[i], ids[j], path)
                             && r == conflicts + [FileConflict(path, ids[i], ids[j])]
    ensures !Rival(taskMap, ids[i], ids[j]) ==> r == conflicts
  {
    r := conflicts;
    if ids[i] in taskMap && ids[j] in taskMap {
      var found := ConflictPath(taskMap[ids[i]].Scope(), taskMap[ids[j]].Scope());
      if found.Some? {
        r := conflicts + [FileConflict(found.value, taskMap[ids[i]].id, taskMap[ids[j]].id)];
      }
    }
  }

  /** `detectFileConflicts`: each task is named once for every rival it has in the wave. */
  method DetectFileConflicts(ids: seq<Id>, taskMap: map<Id, Task>) returns (conflicts: seq<FileConflict>)
    requires Filed(taskMap)
    requires forall a, b | 0 <= a < b < |ids| :: ids[a] != ids[b]
    ensures Genuine(conflicts, ids, taskMap)
    ensures forall x | x in ids :: NamesOf(conflicts)[x] == |Rivals(SetOf(ids), taskMap, x)|
  {
    hide *;
    conflicts := [];
    CountedNone(ids, taskMap);
    for i := 0 to |ids|
      invariant Genuine(conflicts, ids, taskMap)
      invariant CountedBefore(NamesOf(conflicts), ids, RivalAt(ids, taskMap), i, i + 1)
    {
      conflicts := DetectRow(conflicts, ids, i, taskMap);
      CountedRow(NamesOf(conflicts), ids, RivalAt(ids, taskMap), i);
    }
    CountsAreRivals(NamesOf(conflicts), ids, taskMap);
  }

  lemma CountedNone(ids: seq<Id>, taskMap: map<Id, Task>)
    ensures Genuine([], ids, taskMap)
    ensures CountedBefore(NamesOf([]), ids, RivalAt(ids, taskMap), 0, 1)
  {
    forall p: nat | p < |ids| ensures Met(|ids|, RivalAt(ids, taskMap), p, 0, 1) == {} {
    }
  }

  lemma CountsAreRivals(names: multiset<Id>, ids: seq<Id>, taskMap: map<Id, Task>)
    requires forall a, b | 0 <= a < b < |ids| :: ids[a] != ids[b]
    requires CountedBefore(names, ids, RivalAt(ids, taskMap), |ids|, |ids| + 1)
    ensures forall x | x in ids :: names[x] == |Rivals(SetOf(ids), taskMap, x)|
  {
    hide Met, Rival, Rivals;
    forall x | x in ids ensures names[x] == |Rivals(SetOf(ids), taskMap, x)| {
      var p :| 0 <= p < |ids| && ids[p] == x;
      MetAll(ids, taskMap, p);
    }
  }

  /** One row of the double loop. */
  method DetectRow(conflicts: seq<FileConflict>, ids: seq<Id>, i: nat, taskMap: map<Id, Task>)
    returns (r: seq<FileConflict>)
    requires Filed(taskMap) && i < |ids|
    requires forall a, b | 0 <= a < b < |ids| :: ids[a] != ids[b]
    requires Genuine(conflicts, ids, taskMap)
    requires CountedBefore(NamesOf(conflicts), ids, RivalAt(ids, taskMap), i, i + 1)
    ensures Genuine(r, ids, taskMap)
    ensures CountedBefore(NamesOf(r), ids, RivalAt(ids, taskMap), i, |ids|)
  {
    hide CountedBefore, Rival, NamesOf, Genuine, Filed;
    r := conflicts;
    for j := i + 1 to |ids|
      invariant Genuine(r, ids, taskMap)
      invariant CountedBefore(NamesOf(r), ids, RivalAt(ids, taskMap), i, j)
    {
      ghost var before := r;
      r := DetectPair(r, ids, i, j, taskMap);
      DetectedPair(before, r, ids, i, j, taskMap);
    }
  }

  lemma DetectedPair(conflicts: seq<FileConflict>, r: seq<FileConflict>, ids: seq<Id>, i: nat, j: nat,
                     taskMap: map<Id, Task>)
    requires forall a, b | 0 <= a < b < |ids| :: ids[a] != ids[b]
    requires i < j < |ids|
    requires Genuine(conflicts, ids, taskMap)
    requires CountedBefore(NamesOf(conflicts), ids, RivalAt(ids, taskMap), i, j)
    requires Rival(taskMap, ids[i], ids[j]) ==>
               exists path :: IsConflictPath(taskMap, ids[i], ids[j], path)
                              && r == conflicts + [FileConflict(path, ids[i], ids[j])]
    requires !Rival(taskMap, ids[i], ids[j]) ==> r == conflicts
    ensures Genuine(r, ids, taskMap)
    ensures CountedBefore(NamesOf(r), ids, RivalAt(ids, taskMap), i, j + 1)
  {
    hide CountedBefore, Rival, NamesOf, IsConflictPath;
    RivalSymmetric(taskMap, ids[i], ids[j]);
    CountedStep(NamesOf(conflicts), ids, RivalAt(ids, taskMap), i, j);
    if Rival(taskMap, ids[i], ids[j]) {
      var path :| IsConflictPath(taskMap, ids[i], ids[j], path)
        && r == conflicts + [FileConflict(path, ids[i], ids[j])];
      NamesOfAppend(conflicts, FileConflict(path, ids[i], ids[j]));
    }
  }

  lemma NoConflictsMeansFree(ids: seq<Id>, taskMap: map<Id, Task>)
    requires forall x | x in ids :: |Rivals(SetOf(ids), taskMap, x)| == 0
    ensures ConflictFree(SetOf(ids), taskMap)
  {
    forall x, y | x in ids && y in ids ensures !Rival(taskMap, x, y) {
      assert y !in Rivals(SetOf(ids), taskMap, x);
    }
  }

  /** `m` has the most rivals in its wave, and of those tied with it comes last in the input. */
  ghost predicate ChosenToMove(members: set<Id>, taskMap: map<Id, Task>, order: map<Id, nat>, m: Id) {
    && m in members && Rivals(members, taskMap, m) != {}
    && (forall x | x in members && x in order && m in order ::
          var most, mine := |Rivals(members, taskMap, x)|, |Rivals(members, taskMap, m)|;
          most < mine || (most == mine && order[x] <= order[m]))
  }

  /** The running tally of names: each candidate once, with how often it was named. */
  ghost predicate Tallied(counts: map<Id, nat>, candidates: seq<Id>, names: multiset<Id>) {
    forall x ::
      (x in candidates <==> x in counts) && (x in counts <==> x in names) && (x in counts ==> counts[x] == names[x])
  }

  method Tally(counts: map<Id, nat>, candidates: seq<Id>, id: Id, ghost names: multiset<Id>)
    returns (counts': map<Id, nat>, candidates': seq<Id>)
    requires Tallied(counts, candidates, names)
    ensures Tallied(counts', candidates', names + multiset{id})
  {
    counts' := counts[id := (if id in counts then counts[id] else 0) + 1];
    candidates' := if id in counts then candidates else candidates + [id];
  }

  /** `selectConflictTaskToMove`: the ID named most often, the latest in input order on a tie. */
  method SelectConflictTaskToMove(conflicts: seq<FileConflict>, order: map<Id, nat>) returns (moved: Id)
    requires |conflicts| > 0 && forall x | x in NamesOf(conflicts) :: x in order
    ensures moved in NamesOf(conflicts)
    ensures forall x | x in NamesOf(conflicts) ::
              NamesOf(conflicts)[x] < NamesOf(conflicts)[moved]
              || (NamesOf(conflicts)[x] == NamesOf(conflicts)[moved] && order[x] <= order[moved])
  {
    ghost var names := NamesOf(conflicts);
    var counts, candidates := TallyAll(conflicts);
    FirstIsNamed(conflicts);
    moved := MostNamed(conflicts[0].taskB, counts, candidates, order);
    forall x | x in names
      ensures names[x] < names[moved] || (names[x] == names[moved] && order[x] <= order[moved])
    {
      assert x in candidates;
    }
  }

  lemma {:induction false} FirstIsNamed(conflicts: seq<FileConflict>)
    requires conflicts != []
    ensures conflicts[0].taskB in NamesOf(conflicts)
  {
    if |conflicts| > 1 { FirstIsNamed(conflicts[..|conflicts| - 1]); }
  }

  method TallyAll(conflicts: seq<FileConflict>) returns (counts: map<Id, nat>, candidates: seq<Id>)
    ensures Tallied(counts, candidates, NamesOf(conflicts))
  {
    counts, candidates := map[], [];
    for i := 0 to |conflicts|
      invariant Tallied(counts, candidates, NamesOf(conflicts[..i]))
    {
      hide Tallied, NamesOf;
      assert conflicts[..i + 1] == conflicts[..i] + [conflicts[i]];
      NamesOfAppend(conflicts[..i], conflicts[i]);
      counts, candidates := Tally(counts, candidates, conflicts[i].taskA, NamesOf(conflicts[..i]));
      counts, candidates := Tally(counts, candidates, conflicts[i].taskB,
                                  NamesOf(conflicts[..i]) + multiset{conflicts[i].taskA});
    }
    assert conflicts[..|conflicts|] == conflicts;
  }

  /** The candidate with the highest count, the latest in input order on a tie. */
  method MostNamed(first: Id, counts: map<Id, nat>, candidates: seq<Id>, order: map<Id, nat>) returns (moved: Id)
    requires first in candidates
    requires forall x | x in candidates :: x in counts && x in order
    ensures moved in candidates
    ensures forall x | x in candidates ::
              counts[x] < counts[moved] || (counts[x] == counts[moved] && order[x] <= order[moved])
  {
    moved := first;
    var bestCount := counts[moved];
    for i := 0 to |candidates|
      invariant moved in candidates && bestCount == counts[moved]
      invariant forall j | 0 <= j < i ::
                  counts[candidates[j]] < bestCount
                  || (counts[candidates[j]] == bestCount && order[candidates[j]] <= order[moved])
    {
      var id := candidates[i];
      if counts[id] > bestCount || (counts[id] == bestCount && order[id] > order[moved]) {
        moved, bestCount := id, counts[id];
      }
    }
  }
}

/** Wave names: what `wave-k` means to the reader of a plan, and when it is true. */
module WaveNames {
  import opened Strings
  import opened Graphs
  import opened Paths
  import opened Tasks
  import opened WaveLayout
  import opened Conflicts
  import opened Waves

  /** `waveIndex`: the number in a wave name, read leniently (surrounding blanks, a plus sign, leading zeros). */
  function WaveIndex(waveId: string): Option<nat> {
    var trimmed := TrimSpace(waveId);
    if !("wave-" <= trimmed) then None
    else
      match Atoi(trimmed[5..])
      case None => None
      case Some(index) => if index < 0 then None else Some(index)
  }

  /** The number written into a name is the number read back. */
  lemma WaveIndexOfName(k: nat)
    requires k <= MAX_INT64
    ensures WaveIndex(WaveName(k)) == Some(k)
  {
    var name := WaveName(k);
    assert name[0] == 'w' && name[|name| - 1] == Itoa(k)[|Itoa(k)| - 1];
    TrimNothing(name, IsSpace);
    assert name[5..] == Itoa(k);
    AtoiOfItoa(k);
  }

  /** Blanks around the name, a plus sign and leading zeros make no difference to the number read. */
  lemma WaveIndexReads(a: string, d: string, b: string)
    requires AllCut(a, IsSpace) && AllCut(b, IsSpace) && d != "" && AllDigits(d)
    ensures Digits(d).Some?
    ensures WaveIndex(a + "wave-" + d + b) == WaveIndex(a + "wave-+" + d + b) ==
              if Digits(d).value <= MAX_INT64 then Some(Digits(d).value) else None
  {
    hide Trim, Digits, Atoi, IsSpace;
    AtoiReads(d);
    NumberIsNotBlank(d);
    NameIsTrimmed(a, "wave-" + d, b);
    NameIsTrimmed(a, "wave-+" + d, b);
    assert a + "wave-" + d + b == a + ("wave-" + d) + b && a + "wave-+" + d + b == a + ("wave-+" + d) + b;
    assert ("wave-" + d)[5..] == d && ("wave-+" + d)[5..] == "+" + d;
  }

  lemma NumberIsNotBlank(d: string)
    requires d != "" && AllDigits(d)
    ensures !IsSpace(d[|d| - 1]) && !IsSpace('w')
  {
    AsciiSpaces(d[|d| - 1]);
  }

  lemma NameIsTrimmed(a: string, name: string, b: string)
    requires AllCut(a, IsSpace) && AllCut(b, IsSpace) && name != "" && !IsSpace(name[0]) && !IsSpace(name[|name| - 1])
    ensures TrimSpace(a + name + b) == name
  {
    TrimCuts(a, name, b, IsSpace);
  }

  /** And nothing else is a number: every name that has one is written in this way, or as a minus zero. */
  lemma WaveIndexOnly(name: string) returns (a: string, s: string, d: string, b: string)
    requires WaveIndex(name).Some?
    ensures name == a + "wave-" + s + d + b && AllCut(a, IsSpace) && AllCut(b, IsSpace) && s in ["", "+", "-"]
    ensures d != "" && AllDigits(d) && Digits(d).Some? && Digits(d).value == WaveIndex(name).value
  {
    hide TrimSpace, Digits, IsSpace, Atoi;
    a, b := BlanksAround(name);
    var t := TrimSpace(name);
    s, d := SignAndDigits(t[5..]);
    hide WaveIndex;
    assert t == "wave-" + (s + d);
    Regrouped(a, s, d, b);
  }

  lemma BlanksAround(name: string) returns (a: string, b: string)
    ensures name == a + TrimSpace(name) + b && AllCut(a, IsSpace) && AllCut(b, IsSpace)
  {
    hide IsSpace, Trim;
    a, b := TrimParts(name, IsSpace);
  }

  lemma Regrouped(a: string, s: string, d: string, b: string)
    ensures a + ("wave-" + (s + d)) + b == a + "wave-" + s + d + b
  {
  }

  lemma SignAndDigits(n: string) returns (s: string, d: string)
    requires Atoi(n).Some? && Atoi(n).value >= 0
    ensures n == s + d && s in ["", "+", "-"] && d != "" && AllDigits(d) && Digits(d) == Some(Atoi(n).value)
  {
    hide Digits, Atoi;
    AtoiRefuses(n);
    d :| d != "" && AllDigits(d) && (n == d || n == "+" + d || n == "-" + d);
    AtoiReads(d);
    s := if n == d then "" else if n == "+" + d then "+" else "-";
  }

  lemma WaveNameInjective(j: nat, k: nat)
    requires WaveName(j) == WaveName(k)
    ensures j == k
  {
    assert WaveName(j)[5..] == Itoa(j) && WaveName(k)[5..] == Itoa(k);
    DigitsOfItoa(j);
    DigitsOfItoa(k);
  }

  /** Below every depth that occurs, all smaller depths occur too. */
  ghost predicate DepthsContiguous(tasks: seq<Task>) {
    forall id | id in TaskMap(tasks) && Depth(GraphOf(tasks), id) > 0 ::
      exists b :: b in TaskMap(tasks) && Depth(GraphOf(tasks), b) == Depth(GraphOf(tasks), id) - 1
  }

  ghost predicate Rising(levels: seq<nat>) {
    forall i, j | 0 <= i < j < |levels| :: levels[i] < levels[j]
  }

  /** Every level but zero has the next lower number before it. */
  ghost predicate Contiguous(levels: seq<nat>) {
    forall i | 0 <= i < |levels| && levels[i] > 0 :: levels[i] - 1 in levels
  }

  lemma LevelBefore(levels: seq<nat>, k: nat)
    requires Rising(levels) && Contiguous(levels) && k < |levels| && levels[k] > 0
    ensures k > 0 && levels[k - 1] == levels[k] - 1
  {
    hide Contiguous;
    var j := LevelBelow(levels, k);
    assert forall q | k < q < |levels| :: levels[k] < levels[q];
    assert k > 0 ==> levels[k - 1] < levels[k];
    assert k > 0 ==> forall q | 0 <= q < k - 1 :: levels[q] < levels[k - 1];
  }

  lemma LevelBelow(levels: seq<nat>, k: nat) returns (j: nat)
    requires Contiguous(levels) && k < |levels| && levels[k] > 0
    ensures j < |levels| && levels[j] == levels[k] - 1
  {
    j :| j < |levels| && levels[j] == levels[k] - 1;
  }

  lemma {:induction false} GaplessLevels(levels: seq<nat>, k: nat)
    requires Rising(levels) && Contiguous(levels) && k < |levels|
    ensures levels[k] == k
  {
    if k > 0 {
      assert levels[k - 1] < levels[k];
      hide Rising, Contiguous;
      GaplessLevels(levels, k - 1);
      LevelBefore(levels, k);
    } else if levels[k] > 0 {
      LevelBefore(levels, k);
    }
  }

  lemma ContiguousLevels(tasks: seq<Task>, levels: seq<nat>, k: nat)
    requires AreLevels(tasks, levels) && DepthsContiguous(tasks) && k < |levels|
    ensures levels[k] == k
  {
    hide Depth;
    forall i | 0 <= i < |levels| && levels[i] > 0 ensures levels[i] - 1 in levels {
      assert levels[i] in levels;
      var id :| id in TaskMap(tasks) && Depth(GraphOf(tasks), id) == levels[i];
      var b :| b in TaskMap(tasks) && Depth(GraphOf(tasks), b) == levels[i] - 1;
    }
    GaplessLevels(levels, k);
  }

  /** Wave `k` is named `wave-k` throughout exactly when the depths of the tasks have no gap. */
  lemma NamesMatchIffContiguous(tasks: seq<Task>, waves: seq<Wave>, levels: seq<nat>)
    requires Titled(tasks, waves, levels)
    ensures (forall k: nat | k < |waves| :: waves[k].waveId == WaveName(k)) <==> DepthsContiguous(tasks)
  {
    hide Depth;
    if DepthsContiguous(tasks) {
      forall k: nat | k < |waves| ensures waves[k].waveId == WaveName(k) {
        if k < |levels| { ContiguousLevels(tasks, levels, k); }
      }
    }
    if forall k: nat | k < |waves| :: waves[k].waveId == WaveName(k) {
      forall k: nat | k < |levels| ensures levels[k] == k {
        WaveNameInjective(levels[k], k);
      }
      forall id | id in TaskMap(tasks) && Depth(GraphOf(tasks), id) > 0
        ensures exists b :: b in TaskMap(tasks) && Depth(GraphOf(tasks), b) == Depth(GraphOf(tasks), id) - 1
      {
        var d := Depth(GraphOf(tasks), id);
        assert d in levels;
        assert levels[d - 1] == d - 1;
        assert d - 1 in levels;
      }
    }
  }

  /** When every dependency names a task of the list, the names are right. */
  lemma ClosedIsContiguous(tasks: seq<Task>)
    requires Closed(tasks) && Acyclic(GraphOf(tasks))
    ensures DepthsContiguous(tasks)
  {
    hide Depth, Acyclic;
    forall id | id in TaskMap(tasks) && Depth(GraphOf(tasks), id) > 0
      ensures exists b :: b in TaskMap(tasks) && Depth(GraphOf(tasks), b) == Depth(GraphOf(tasks), id) - 1
    {
      DepthStep(GraphOf(tasks), id);
      var b :| Edge(GraphOf(tasks), id, b) && Depth(GraphOf(tasks), b) == Depth(GraphOf(tasks), id) - 1;
      assert b in GraphOf(tasks);
    }
  }

  /** Two tasks with overlapping scopes that wait for the same unknown task. */
  const OPEN_TASKS: seq<Task> := [
    Task("task-a", [], ["task-x"], ["internal"], [], [], "", "", []),
    Task("task-b", [], ["task-x"], ["internal"], [], [], "", "", [])]

  /** With a dependency that is not in the list the names can lie: two clashing tasks are put in
      different waves, and both waves are called `wave-1`. */
  lemma OpenDependencyRepeatsAName(waves: seq<Wave>, levels: seq<nat>)
    requires Schedule(OPEN_TASKS, waves) && Titled(OPEN_TASKS, waves, levels)
    ensures |waves| >= 2 && waves[0].waveId == waves[1].waveId == WaveName(1)
    ensures Clash(OPEN_TASKS[0], OPEN_TASKS[1])
    ensures UniqueIds(OPEN_TASKS) && Acyclic(GraphOf(OPEN_TASKS))
  {
    hide Schedule, Titled, AreLevels, Clash, Acyclic, UniqueIds, WaveName, GraphOf;
    OpenIsAcyclic();
    OpenTasksClash();
    OpenTasksApart(waves);
    OpenLevels(levels, waves);
    OpenNames(waves, levels);
  }

  lemma OpenTasksApart(waves: seq<Wave>)
    requires Schedule(OPEN_TASKS, waves)
    ensures |waves| >= 2
  {
    hide Clash, GraphOf, InOrder;
    OpenTables();
    OpenTasksClash();
    assert OPEN_TASKS[0].id == "task-a" && OPEN_TASKS[1].id == "task-b";
    var j :| 0 <= j < |waves| && OPEN_TASKS[0].id in waves[j].tasks;
    var k :| 0 <= k < |waves| && OPEN_TASKS[1].id in waves[k].tasks;
    assert Rival(TaskMap(OPEN_TASKS), "task-a", "task-b");
    hide TaskMap, Rival;
    assert j != k;
  }

  lemma OpenLevels(levels: seq<nat>, waves: seq<Wave>)
    requires Titled(OPEN_TASKS, waves, levels)
    ensures levels == [1]
  {
    hide WaveName;
    assert |levels| > 1 ==> levels[0] < levels[1];
    var g, tm := GraphOf(OPEN_TASKS), TaskMap(OPEN_TASKS);
    OpenDepths();
    assert "task-a" in tm by { OpenTables(); }
    hide GraphOf, TaskMap, Depth;
    assert Depth(g, "task-a") == 1;
    assert 1 in levels;
    forall j | 0 <= j < |levels| ensures levels[j] == 1 {
      assert levels[j] in levels;
      var id :| id in tm && Depth(g, id) == levels[j];
    }
  }

  lemma OpenNames(waves: seq<Wave>, levels: seq<nat>)
    requires Titled(OPEN_TASKS, waves, levels) && levels == [1] && |waves| >= 2
    ensures waves[0].waveId == waves[1].waveId == WaveName(1)
  {
    hide AreLevels, WaveName;
  }

  lemma OpenIsAcyclic()
    ensures UniqueIds(OPEN_TASKS) && Acyclic(GraphOf(OPEN_TASKS))
  {
    OpenTables();
    var rank: Id -> int := id => if id == "task-x" then 0 else 1;
    assert Ranked(GraphOf(OPEN_TASKS), rank);
    RankedAcyclic(GraphOf(OPEN_TASKS), rank);
    assert OPEN_TASKS[0].id[5] != OPEN_TASKS[1].id[5];
  }

  lemma OpenTables()
    ensures TaskMap(OPEN_TASKS) == map["task-a" := OPEN_TASKS[0], "task-b" := OPEN_TASKS[1]]
  {
    var t := OPEN_TASKS;
    assert t[..1] == [t[0]] && t[..1][..0] == [];
    assert TaskMap(t[..1]) == map["task-a" := t[0]];
  }

  lemma OpenTasksClash()
    ensures Clash(OPEN_TASKS[0], OPEN_TASKS[1])
  {
    assert Clean("internal");
    NormalizeFixesClean("internal");
    assert Overlap(OPEN_TASKS[0].Scope()[0], OPEN_TASKS[1].Scope()[0]);
  }

  lemma OpenDepths()
    ensures forall id | id in TaskMap(OPEN_TASKS) :: Depth(GraphOf(OPEN_TASKS), id) == 1
  {
    OpenTables();
    var g := GraphOf(OPEN_TASKS);
    assert |g| == 2 by { assert g.Keys == {"task-a", "task-b"}; assert |g.Keys| == 2; }
    forall id | id in TaskMap(OPEN_TASKS) ensures Depth(g, id) == 1 {
      assert g[id] == ["task-x"];
      assert Deepest(g, "task-x", 1) == 0;
      assert ["task-x"][..0] == [];
      assert DeepestOf(g, ["task-x"], 1) == 1;
    }
  }
}

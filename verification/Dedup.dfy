/** Merging duplicate learnings: one pass over the store that supersedes the weaker of each duplicate pair. */
module Dedup {
  import opened Strings

  datatype Learning = Learning(
    id: string,
    tags: seq<string>,
    summary: string,
    expired: bool,
    supersededBy: string,
    successCount: int,
    attachCount: int,
    confidence: real
  ) {
    function Effectiveness(): real {
      if attachCount == 0 then confidence else successCount as real / attachCount as real
    }

    predicate IsActive() {
      !expired && supersededBy == ""
    }
  }

  /** How many entries of `b` are tags of `a`; a tag that `b` repeats counts each time. */
  function Shared(a: seq<string>, b: seq<string>): nat {
    if b == [] then 0 else Shared(a, b[..|b| - 1]) + (if b[|b| - 1] in a then 1 else 0)
  }

  /** One for each entry of `b` that is a tag of `a`. */
  lemma {:induction false} SharedConcat(a: seq<string>, b: seq<string>, c: seq<string>)
    ensures Shared(a, b + c) == Shared(a, b) + Shared(a, c)
    ensures forall t :: Shared(a, [t]) == if t in a then 1 else 0
  {
    if c == [] {
      assert b + c == b;
      forall t ensures Shared(a, [t]) == if t in a then 1 else 0 { assert [t][..0] == []; }
    } else {
      assert (b + c)[..|b + c| - 1] == b + c[..|c| - 1];
      SharedConcat(a, b, c[..|c| - 1]);
    }
  }

  method SharedTagCount(a: seq<string>, b: seq<string>) returns (count: nat)
    ensures count == Shared(a, b)
  {
    var tags := set t | t in a;
    count := 0;
    for k := 0 to |b|
      invariant count == Shared(a, b[..k])
    {
      assert b[..k + 1][..k] == b[..k];
      if b[k] in tags {
        count := count + 1;
      }
    }
    assert b[..|b|] == b;
  }

  predicate SimilarSummary(a: string, b: string) {
    a == b ||
    var shorter, longer := if |a| > |b| then b else a, if |a| > |b| then a else b;
    shorter != "" && Contains(Lower(longer), Lower(shorter))
  }

  /** Equal summaries, or non-empty ones of which one, in any case of letters, contains the other. */
  lemma SimilarIff(a: string, b: string)
    ensures SimilarSummary(a, b) <==>
              a == b || (a != "" && b != "" && (Within(a, b) || Within(b, a)))
  {
    ContainsIff(Lower(b), Lower(a));
    ContainsIff(Lower(a), Lower(b));
    WithinIff(a, b);
    WithinIff(b, a);
    if |a| == |b| { SameLengthWithin(a, b); }
    hide Contains, Lower, Within;
  }

  lemma SameLengthWithin(a: string, b: string)
    requires |a| == |b|
    ensures Within(a, b) <==> Within(b, a)
  {
    SameLengthSame(a, b);
    SameLengthSame(b, a);
    hide Within;
  }

  lemma SameLengthSame(a: string, b: string)
    requires |a| == |b|
    ensures Within(a, b) <==> SameButCase(a, b)
    ensures SameButCase(a, b) <==> SameButCase(b, a)
  {
    if x, w, y :| b == x + w + y && SameButCase(w, a) { assert x == y == "" && w == b; }
    if SameButCase(a, b) { assert b == "" + b + "" && SameButCase(b, a); }
    hide SameButCase;
  }

  ghost predicate Within(inner: string, outer: string) {
    exists x, w, y :: outer == x + w + y && SameButCase(w, inner)
  }

  lemma WithinIff(inner: string, outer: string)
    ensures Contains(Lower(outer), Lower(inner)) <==> Within(inner, outer)
    ensures Within(inner, outer) ==> |inner| <= |outer|
  {
    ContainsIff(Lower(outer), Lower(inner));
    if Contains(Lower(outer), Lower(inner)) {
      var i :| 0 <= i <= |outer| && OccursAt(Lower(outer), Lower(inner), i);
      var w := outer[i..i + |inner|];
      assert Lower(w) == Lower(outer)[i..i + |inner|];
      SameLowerIff(w, inner);
      assert outer == outer[..i] + w + outer[i + |inner|..];
    }
    if x, w, y :| outer == x + w + y && SameButCase(w, inner) {
      SameLowerIff(w, inner);
      LowerConcat(x + w, y);
      LowerConcat(x, w);
    }
  }

  /** The success rate where there have been trials, and otherwise the confidence. */
  lemma EffectivenessIs(l: Learning)
    ensures l.attachCount == 0 ==> l.Effectiveness() == l.confidence
    ensures l.attachCount != 0 ==> l.Effectiveness() * l.attachCount as real == l.successCount as real
  {
  }

  /** `b` comes after `a` in the store and repeats it. */
  predicate Duplicate(a: Learning, b: Learning) {
    Shared(a.tags, b.tags) >= 2 && SimilarSummary(a.summary, b.summary)
  }

  // ----- what a pass may do -----

  ghost predicate DistinctIds(s: seq<Learning>) {
    forall x, y | 0 <= x < y < |s| :: s[x].id != s[y].id
  }

  ghost predicate NamedIds(s: seq<Learning>) {
    forall x | 0 <= x < |s| :: s[x].id != ""
  }

  /** Better, or as good and earlier: a strict order on the entries. */
  ghost predicate Above(s: seq<Learning>, y: nat, x: nat)
    requires x < |s| && y < |s|
  {
    s[y].Effectiveness() > s[x].Effectiveness() || (s[y].Effectiveness() == s[x].Effectiveness() && y < x)
  }

  /** `y` may supersede `x`: both were active, one repeats the other, and `y` is the better one. */
  ghost predicate MaySupersede(s: seq<Learning>, y: nat, x: nat)
    requires x < |s| && y < |s|
  {
    s[x].IsActive() && s[y].IsActive() && Above(s, y, x)
    && (if y < x then Duplicate(s[y], s[x]) else Duplicate(s[x], s[y]))
  }

  /** Entry `x` is as before the pass, or was active and is superseded by an entry that may supersede it. */
  ghost predicate Accounted(before: seq<Learning>, after: seq<Learning>, x: nat)
    requires x < |before| == |after|
  {
    after[x] == before[x] ||
    exists y: nat :: y < |before| && MaySupersede(before, y, x) && after[x] == before[x].(supersededBy := before[y].id)
  }

  ghost predicate AllAccounted(before: seq<Learning>, after: seq<Learning>) {
    |after| == |before| && forall x | 0 <= x < |before| :: Accounted(before, after, x)
  }

  /** No two active entries with the earlier before `i`, or at `i` with the later before `j`, are duplicates. */
  ghost predicate NoneLeft(s: seq<Learning>, i: nat, j: nat) {
    forall p, q | 0 <= p < q < |s| && (p < i || (p == i && q < j)) && s[p].IsActive() && s[q].IsActive() ::
      !Duplicate(s[p], s[q])
  }

  /** What a pass leaves: every change is a justified supersession, and, when no ID is empty, no active duplicates. */
  ghost predicate Deduplicated(before: seq<Learning>, after: seq<Learning>) {
    AllAccounted(before, after) && (NamedIds(before) ==> NoneLeft(after, |after|, 0))
  }

  // ----- the pass -----

  /** What `TryMergeDuplicate` leaves of `s`. */
  function Merged(s: seq<Learning>, i: nat, j: nat): seq<Learning>
    requires i < j < |s|
  {
    if !Duplicate(s[i], s[j]) then s
    else if s[i].Effectiveness() >= s[j].Effectiveness() then s[j := s[j].(supersededBy := s[i].id)]
    else s[i := s[i].(supersededBy := s[j].id)]
  }

  /** The store and the merge count after the entry at `i` has met the later entries before `j`: it goes on merging
      after it has been superseded itself. */
  function Row(s: seq<Learning>, i: nat, j: nat): (seq<Learning>, nat)
    requires i < |s| && j <= |s|
    ensures |Row(s, i, j).0| == |s|
  {
    if j <= i + 1 then (s, 0)
    else
      var (r, count) := Row(s, i, j - 1);
      if r[j - 1].IsActive() then (Merged(r, i, j - 1), count + (if Duplicate(r[i], r[j - 1]) then 1 else 0))
      else (r, count)
  }

  /** The store and the merge count after the entries before `i` have had their turn. */
  function Pass(s: seq<Learning>, i: nat): (seq<Learning>, nat)
    requires i <= |s|
    ensures |Pass(s, i).0| == |s|
  {
    if i == 0 then (s, 0)
    else
      var (r, count) := Pass(s, i - 1);
      if r[i - 1].IsActive() then (Row(r, i - 1, |s|).0, count + Row(r, i - 1, |s|).1) else (r, count)
  }

  lemma RowNext(s: seq<Learning>, i: nat, j: nat)
    requires i < |s| && j <= |s|
    ensures Row(s, i, j) ==
            if j <= i + 1 then (s, 0)
            else
              var (r, count) := Row(s, i, j - 1);
              if r[j - 1].IsActive() then (Merged(r, i, j - 1), count + (if Duplicate(r[i], r[j - 1]) then 1 else 0))
              else (r, count)
  {
    hide Duplicate, Merged, Learning.IsActive;
  }

  lemma PassNext(s: seq<Learning>, i: nat)
    requires i <= |s|
    ensures Pass(s, i) ==
            if i == 0 then (s, 0)
            else
              var (r, count) := Pass(s, i - 1);
              if r[i - 1].IsActive() then (Row(r, i - 1, |s|).0, count + Row(r, i - 1, |s|).1) else (r, count)
  {
    hide Row, Learning.IsActive;
  }

  method TryMergeDuplicate(learnings: array<Learning>, i: nat, j: nat) returns (merged: bool)
    requires i < j < learnings.Length
    modifies learnings
    ensures merged <==> Duplicate(old(learnings[i]), old(learnings[j]))
    ensures learnings[..] == Merged(old(learnings[..]), i, j)
    ensures forall k | 0 <= k < learnings.Length && k != i && k != j :: learnings[k] == old(learnings[k])
    ensures var a, b := old(learnings[i]), old(learnings[j]);
            if !merged then learnings[i] == a && learnings[j] == b
            else if a.Effectiveness() < b.Effectiveness() then
              learnings[j] == b && learnings[i] == a.(supersededBy := b.id)
            else
              learnings[i] == a && learnings[j] == b.(supersededBy := a.id)
  {
    var a, b := learnings[i], learnings[j];
    var shared := SharedTagCount(a.tags, b.tags);
    if shared < 2 || !SimilarSummary(a.summary, b.summary) {
      return false;
    }
    if a.Effectiveness() >= b.Effectiveness() {
      learnings[j] := b.(supersededBy := a.id);
    } else {
      learnings[i] := a.(supersededBy := b.id);
    }
    merged := true;
  }

  method ApplyDedup(learnings: array<Learning>) returns (merged: nat)
    modifies learnings
    ensures (learnings[..], merged) == Pass(old(learnings[..]), learnings.Length)
    ensures Deduplicated(old(learnings[..]), learnings[..])
    ensures NamedIds(old(learnings[..])) ==>
              var s := old(learnings[..]);
              Fates(s, learnings[..], |s|, 0) && merged == |Merges(s, |s|, 0)|
  {
    hide Duplicate, Merged, Deduplicated, Learning.IsActive, Row, Pass;
    merged := 0;
    ghost var before := learnings[..];
    PassNext(before, 0);
    for i := 0 to learnings.Length
      invariant (learnings[..], merged) == Pass(before, i)
    {
      PassNext(before, i + 1);
      if !learnings[i].IsActive() {
        continue;
      }
      ghost var start, count := learnings[..], merged;
      RowNext(start, i, i + 1);
      for j := i + 1 to learnings.Length
        invariant learnings[..] == Row(start, i, j).0 && merged == count + Row(start, i, j).1
      {
        RowNext(start, i, j + 1);
        if !learnings[j].IsActive() {
          continue;
        }
        var ok := TryMergeDuplicate(learnings, i, j);
        if ok {
          merged := merged + 1;
        }
      }
    }
    PassDeduplicates(before);
    hide NamedIds, Fates, Merges;
    if NamedIds(before) { PassIs(before); }
  }

  // ----- what the pass keeps -----

  /** Entry `x` is superseded by `y` now, whatever it was since the pass began. */
  lemma SupersedeKeepsAccounted(before: seq<Learning>, s: seq<Learning>, x: nat, y: nat)
    requires AllAccounted(before, s) && x < |s| && y < |s| && MaySupersede(before, y, x)
    ensures AllAccounted(before, s[x := s[x].(supersededBy := before[y].id)])
  {
    hide MaySupersede;
    var t := s[x := s[x].(supersededBy := before[y].id)];
    forall z | 0 <= z < |before| ensures Accounted(before, t, z) {
      assert Accounted(before, s, z);
    }
  }

  lemma SupersedeKeepsNoneLeft(s: seq<Learning>, x: nat, id: string, i: nat, j: nat)
    requires NoneLeft(s, i, j) && x < |s| && id != ""
    ensures NoneLeft(s[x := s[x].(supersededBy := id)], i, j)
  {
    hide Duplicate;
  }

  /** Fields that decide a merge are those from before the pass. */
  lemma AccountedFields(before: seq<Learning>, s: seq<Learning>, x: nat)
    requires AllAccounted(before, s) && x < |s|
    ensures s[x] == before[x].(supersededBy := s[x].supersededBy)
    ensures s[x].Effectiveness() == before[x].Effectiveness()
    ensures s[x].IsActive() ==> before[x].IsActive()
  {
    hide Duplicate;
    assert Accounted(before, s, x);
  }

  lemma MergeKeepsAccounted(before: seq<Learning>, s: seq<Learning>, i: nat, j: nat)
    requires AllAccounted(before, s) && i < j < |s| && before[i].IsActive() && s[j].IsActive()
    ensures AllAccounted(before, Merged(s, i, j))
  {
    AccountedFields(before, s, i);
    AccountedFields(before, s, j);
    if Duplicate(s[i], s[j]) {
      if s[i].Effectiveness() >= s[j].Effectiveness() {
        SupersedeKeepsAccounted(before, s, j, i);
      } else {
        SupersedeKeepsAccounted(before, s, i, j);
      }
    }
  }

  lemma NextPair(s: seq<Learning>, i: nat, j: nat)
    requires i < j < |s|
    requires s[i].IsActive() && s[j].IsActive() ==> !Duplicate(s[i], s[j])
    ensures NoneLeft(s, i, j) ==> NoneLeft(s, i, j + 1)
  {
    hide Duplicate;
  }

  lemma NextEntry(s: seq<Learning>, i: nat)
    requires i < |s|
    ensures (NoneLeft(s, i, |s|) || (NoneLeft(s, i, 0) && !s[i].IsActive())) ==> NoneLeft(s, i + 1, 0)
  {
    hide Duplicate;
  }

  lemma StartEntry(s: seq<Learning>, i: nat)
    ensures NoneLeft(s, i, 0) ==> NoneLeft(s, i, i + 1)
  {
    hide Duplicate;
  }

  lemma MergeLeavesNone(s: seq<Learning>, i: nat, j: nat)
    requires NoneLeft(s, i, j) && i < j < |s| && s[i].id != "" && s[j].id != ""
    ensures NoneLeft(Merged(s, i, j), i, j + 1)
  {
    hide NoneLeft;
    if Duplicate(s[i], s[j]) {
      if s[i].Effectiveness() >= s[j].Effectiveness() {
        SupersedeKeepsNoneLeft(s, j, s[i].id, i, j);
      } else {
        SupersedeKeepsNoneLeft(s, i, s[j].id, i, j);
      }
    }
    NextPair(Merged(s, i, j), i, j);
  }

  lemma PairDone(before: seq<Learning>, s: seq<Learning>, i: nat, j: nat)
    requires AllAccounted(before, s) && i < j < |s| && before[i].IsActive() && s[j].IsActive()
    requires NamedIds(before) ==> NoneLeft(s, i, j)
    ensures AllAccounted(before, Merged(s, i, j))
    ensures NamedIds(before) ==> NoneLeft(Merged(s, i, j), i, j + 1)
  {
    MergeKeepsAccounted(before, s, i, j);
    AccountedFields(before, s, i);
    AccountedFields(before, s, j);
    hide Duplicate, AllAccounted, NoneLeft;
    if NamedIds(before) {
      MergeLeavesNone(s, i, j);
    }
  }

  lemma {:induction false} RowKeeps(before: seq<Learning>, s: seq<Learning>, i: nat, j: nat)
    requires AllAccounted(before, s) && i < j <= |s| && before[i].IsActive()
    requires NamedIds(before) ==> NoneLeft(s, i, 0)
    ensures AllAccounted(before, Row(s, i, j).0)
    ensures NamedIds(before) ==> NoneLeft(Row(s, i, j).0, i, j)
  {
    if j == i + 1 {
      StartEntry(s, i);
    } else {
      RowKeeps(before, s, i, j - 1);
      var r := Row(s, i, j - 1).0;
      hide AllAccounted, NoneLeft, NamedIds;
      if r[j - 1].IsActive() { PairDone(before, r, i, j - 1); } else { NextPair(r, i, j - 1); }
    }
  }

  lemma {:induction false} PassKeeps(before: seq<Learning>, i: nat)
    requires i <= |before|
    ensures AllAccounted(before, Pass(before, i).0)
    ensures NamedIds(before) ==> NoneLeft(Pass(before, i).0, i, 0)
  {
    if i > 0 {
      PassKeeps(before, i - 1);
      var r := Pass(before, i - 1).0;
      NextEntry(r, i - 1);
      AccountedFields(before, r, i - 1);
      if r[i - 1].IsActive() {
        hide Accounted, NoneLeft;
        RowKeeps(before, r, i - 1, |before|);
        NextEntry(Row(r, i - 1, |before|).0, i - 1);
      }
    }
  }

  /** A pass supersedes only where it may, and, when no ID is empty, leaves no active duplicates. */
  lemma PassDeduplicates(before: seq<Learning>)
    ensures Deduplicated(before, Pass(before, |before|).0)
  {
    PassKeeps(before, |before|);
  }

  /** A pass leaves expired and superseded entries alone, changes only the superseder of any other, and names in it only
      entries that were neither. */
  lemma PassSparesInactive(before: seq<Learning>, after: seq<Learning>, x: nat)
    requires Deduplicated(before, after) && x < |before|
    ensures |after| == |before|
    ensures before[x].expired || before[x].supersededBy != "" ==> after[x] == before[x]
    ensures after[x] == before[x]
            || exists y :: 0 <= y < |before| && y != x && after[x] == before[x].(supersededBy := before[y].id)
                           && !before[y].expired && before[y].supersededBy == ""
                           && !before[x].expired && before[x].supersededBy == ""
  {
    hide Duplicate, NoneLeft, Learning.Effectiveness;
    assert Accounted(before, after, x);
    if after[x] != before[x] {
      var y: nat :| y < |before| && MaySupersede(before, y, x) && after[x] == before[x].(supersededBy := before[y].id);
      assert y != x;
    }
  }

  // ----- exactly what a pass does -----

  /** Of two duplicates the earlier one wins unless the later is strictly more effective. */
  ghost predicate Beats(s: seq<Learning>, p: nat, q: nat) {
    p < q < |s| && Duplicate(s[p], s[q]) && s[p].Effectiveness() >= s[q].Effectiveness()
  }

  /** Entry `q` has a turn: it is active and no earlier one with a turn beats it. */
  ghost predicate HasTurn(s: seq<Learning>, q: nat) {
    q < |s| && s[q].IsActive() && forall p: nat | p < q && HasTurn(s, p) :: !Beats(s, p, q)
  }

  /** In its turn `p` still meets `q` active: no entry with an earlier turn has beaten `q`. */
  ghost predicate Meets(s: seq<Learning>, p: nat, q: nat) {
    p < q < |s| && HasTurn(s, p) && s[q].IsActive() && forall o: nat | o < p && HasTurn(s, o) :: !Beats(s, o, q)
  }

  /** The pair `(p, q)` comes before `(i, j)`, row by row. */
  predicate Sooner(p: nat, q: nat, i: nat, j: nat) {
    p < i || (p == i && q < j)
  }

  ghost predicate Beaten(s: seq<Learning>, p: nat, q: nat, i: nat, j: nat) {
    Sooner(p, q, i, j) && HasTurn(s, p) && Beats(s, p, q)
  }

  ghost predicate Loses(s: seq<Learning>, q: nat, k: nat, i: nat, j: nat) {
    Sooner(q, k, i, j) && Meets(s, q, k) && Duplicate(s[q], s[k]) && !Beats(s, q, k)
  }

  ghost predicate FirstBeaten(s: seq<Learning>, p: nat, q: nat, i: nat, j: nat) {
    Beaten(s, p, q, i, j) && forall o: nat | o < p :: !Beaten(s, o, q, i, j)
  }

  ghost predicate LastLoses(s: seq<Learning>, q: nat, k: nat, i: nat, j: nat) {
    Loses(s, q, k, i, j) && forall l: nat | k < l :: !Loses(s, q, l, i, j)
  }

  /** What has become of entry `q` when the pairs before `(i, j)` have been looked at: superseded by the first entry
      that beats it in its turn, or else by the last better one it meets in its own, or else as it was. */
  ghost predicate Fate(s: seq<Learning>, q: nat, r: Learning, i: nat, j: nat)
    requires q < |s|
  {
    || (r == s[q] && (!s[q].IsActive()
                      || ((forall p: nat :: !Beaten(s, p, q, i, j)) && forall k: nat :: !Loses(s, q, k, i, j))))
    || (s[q].IsActive() && exists p: nat :: FirstBeaten(s, p, q, i, j) && r == s[q].(supersededBy := s[p].id))
    || (s[q].IsActive() && (forall p: nat :: !Beaten(s, p, q, i, j))
        && exists k: nat :: LastLoses(s, q, k, i, j) && r == s[q].(supersededBy := s[k].id))
  }

  ghost predicate Fates(s: seq<Learning>, r: seq<Learning>, i: nat, j: nat) {
    |r| == |s| && forall q: nat | q < |s| :: Fate(s, q, r[q], i, j)
  }

  /** The pairs that merge. */
  ghost function Merges(s: seq<Learning>, i: nat, j: nat): set<(nat, nat)> {
    set p: nat, q: nat | p < |s| && q < |s| && Sooner(p, q, i, j) && Meets(s, p, q) && Duplicate(s[p], s[q]) :: (p, q)
  }

  lemma FateFields(s: seq<Learning>, q: nat, r: Learning, i: nat, j: nat)
    requires q < |s| && Fate(s, q, r, i, j)
    ensures r == s[q].(supersededBy := r.supersededBy)
  {
    hide Beaten, Loses, FirstBeaten, LastLoses;
  }

  /** An entry not looked at in its own turn yet is active unless it was not, or has been beaten. */
  lemma FateActive(s: seq<Learning>, q: nat, r: Learning, i: nat, j: nat)
    requires NamedIds(s) && q < |s| && Fate(s, q, r, i, j) && !Sooner(q, q + 1, i, j)
    ensures r.IsActive() <==> s[q].IsActive() && forall p: nat :: !Beaten(s, p, q, i, j)
  {
    hide Duplicate, HasTurn, Beats;
    forall k: nat ensures !Loses(s, q, k, i, j) {}
    hide Loses;
    if s[q].IsActive() && r != s[q] {
      var p: nat :| FirstBeaten(s, p, q, i, j) && r == s[q].(supersededBy := s[p].id);
      assert s[p].id != "" && Beaten(s, p, q, i, j);
    }
  }

  lemma SameDuplicate(s: seq<Learning>, a: Learning, b: Learning, i: nat, j: nat)
    requires i < |s| && j < |s|
    requires a == s[i].(supersededBy := a.supersededBy) && b == s[j].(supersededBy := b.supersededBy)
    ensures Duplicate(a, b) <==> Duplicate(s[i], s[j])
    ensures a.Effectiveness() == s[i].Effectiveness() && b.Effectiveness() == s[j].Effectiveness()
  {
  }

  lemma SameFate(s: seq<Learning>, q: nat, r: Learning, i: nat, j: nat, i': nat, j': nat)
    requires q < |s| && Fate(s, q, r, i, j)
    requires forall p: nat :: Beaten(s, p, q, i', j') <==> Beaten(s, p, q, i, j)
    requires forall k: nat :: Loses(s, q, k, i', j') <==> Loses(s, q, k, i, j)
    ensures Fate(s, q, r, i', j')
  {
    hide Beaten, Loses;
    forall p: nat ensures FirstBeaten(s, p, q, i', j') <==> FirstBeaten(s, p, q, i, j) {}
    forall k: nat ensures LastLoses(s, q, k, i', j') <==> LastLoses(s, q, k, i, j) {}
    hide FirstBeaten, LastLoses;
  }

  /** Looking at one more pair changes the fate of its two entries only. */
  lemma OtherFates(s: seq<Learning>, q: nat, r: Learning, i: nat, j: nat)
    requires q < |s| && Fate(s, q, r, i, j) && i < j && q != j && q != i
    ensures Fate(s, q, r, i, j + 1)
  {
    hide Beats, HasTurn, Meets, Duplicate, Fate;
    assert (forall p: nat :: Beaten(s, p, q, i, j + 1) <==> Beaten(s, p, q, i, j))
           && forall k: nat :: Loses(s, q, k, i, j + 1) <==> Loses(s, q, k, i, j);
    SameFate(s, q, r, i, j, i, j + 1);
  }

  /** The later entry of the pair: beaten now, */
  lemma LaterBeaten(s: seq<Learning>, i: nat, j: nat)
    requires i < j < |s| && HasTurn(s, i) && Beats(s, i, j)
    requires s[j].IsActive() && forall p: nat :: !Beaten(s, p, j, i, j)
    ensures Fate(s, j, s[j].(supersededBy := s[i].id), i, j + 1)
  {
    var n := j + 1;
    assert Beaten(s, i, j, i, n);
    forall o: nat | o < i ensures !Beaten(s, o, j, i, n) { assert !Beaten(s, o, j, i, j); }
    hide Beaten;
    assert FirstBeaten(s, i, j, i, j + 1);
  }

  /** or not now. */
  lemma LaterUnbeaten(s: seq<Learning>, r: Learning, i: nat, j: nat)
    requires i < j < |s| && HasTurn(s, i) && Fate(s, j, r, i, j)
    requires !(Beats(s, i, j) && s[j].IsActive() && forall p: nat :: !Beaten(s, p, j, i, j))
    ensures Fate(s, j, r, i, j + 1)
  {
    hide Beats, HasTurn, Meets, Duplicate;
    var n := j + 1;
    NoTurnYet(s, i, j, n);
    NoTurnYet(s, i, j, j);
    if !Beats(s, i, j) {
      forall p: nat ensures Beaten(s, p, j, i, n) <==> Beaten(s, p, j, i, j) {}
      hide Fate, Beaten, Loses;
      SameFate(s, j, r, i, j, i, n);
    } else if s[j].IsActive() {
      BeatenBefore(s, r, i, j);
    }
  }

  lemma NoTurnYet(s: seq<Learning>, i: nat, j: nat, n: nat)
    requires i < j
    ensures forall k: nat :: !Loses(s, j, k, i, n)
  {
  }

  lemma BeatenBefore(s: seq<Learning>, r: Learning, i: nat, j: nat)
    requires i < j < |s| && Fate(s, j, r, i, j) && s[j].IsActive() && exists p: nat :: Beaten(s, p, j, i, j)
    requires forall k: nat :: !Loses(s, j, k, i, j)
    ensures Fate(s, j, r, i, j + 1)
  {
    hide Loses, HasTurn, Duplicate;
    var p: nat :| FirstBeaten(s, p, j, i, j) && r == s[j].(supersededBy := s[p].id);
    FirstStays(s, p, i, j);
  }

  lemma FirstStays(s: seq<Learning>, p: nat, i: nat, j: nat)
    requires i < j && FirstBeaten(s, p, j, i, j)
    ensures FirstBeaten(s, p, j, i, j + 1)
  {
    hide Beats, HasTurn;
    var n := j + 1;
    assert p < i && Beaten(s, p, j, i, n);
    forall o: nat | o < p ensures !Beaten(s, o, j, i, n) { assert !Beaten(s, o, j, i, j); }
    hide Beaten;
  }

  /** The earlier entry, in its turn. */
  lemma EarlierFate(s: seq<Learning>, r: Learning, i: nat, j: nat)
    requires i < j < |s| && HasTurn(s, i) && Fate(s, i, r, i, j)
    ensures Loses(s, i, j, i, j + 1) ==> Fate(s, i, s[i].(supersededBy := s[j].id), i, j + 1)
    ensures !Loses(s, i, j, i, j + 1) ==> Fate(s, i, r, i, j + 1)
  {
    hide Beats, HasTurn, Meets, Duplicate, Beaten, Loses, Learning.IsActive;
    var n := j + 1;
    TurnIff(s, i);
    NeverBeaten(s, i, j);
    NeverBeaten(s, i, n);
    LosesUpTo(s, i, j, n);
    if Loses(s, i, j, i, n) {
      assert LastLoses(s, i, j, i, n);
    } else {
      hide Fate;
      SameFate(s, i, r, i, j, i, n);
    }
  }

  /** What has its turn is not beaten in it. */
  lemma NeverBeaten(s: seq<Learning>, i: nat, j: nat)
    requires forall p: nat :: !Beaten(s, p, i, i, 0)
    ensures forall p: nat :: !Beaten(s, p, i, i, j)
  {
    hide HasTurn;
    forall p: nat ensures !Beaten(s, p, i, i, j) { assert !Beaten(s, p, i, i, 0); }
  }

  lemma LosesUpTo(s: seq<Learning>, i: nat, j: nat, n: nat)
    requires n == j + 1
    ensures forall k: nat :: Loses(s, i, k, i, n) <==> Loses(s, i, k, i, j) || (k == j && Loses(s, i, j, i, n))
    ensures forall k: nat | j < k :: !Loses(s, i, k, i, n)
  {
    hide Meets, Duplicate, Beats;
  }

  lemma TurnIff(s: seq<Learning>, i: nat)
    requires i < |s|
    ensures HasTurn(s, i) <==> s[i].IsActive() && forall p: nat :: !Beaten(s, p, i, i, 0)
  {
    hide Beats, Learning.IsActive;
    if !HasTurn(s, i) && s[i].IsActive() {
      var p: nat :| p < i && HasTurn(s, p) && Beats(s, p, i);
      assert Beaten(s, p, i, i, 0);
    }
    if p: nat :| Beaten(s, p, i, i, 0) { assert p < i && HasTurn(s, p) && Beats(s, p, i); }
  }

  lemma MeetsIff(s: seq<Learning>, i: nat, j: nat)
    requires i < j < |s| && HasTurn(s, i)
    ensures Meets(s, i, j) <==> s[j].IsActive() && forall p: nat :: !Beaten(s, p, j, i, j)
  {
    hide Beats, Learning.IsActive, HasTurn;
    if !Meets(s, i, j) && s[j].IsActive() {
      var p: nat :| p < i && HasTurn(s, p) && Beats(s, p, j);
      assert Beaten(s, p, j, i, j);
    }
  }

  /** In the turn of `i` the entry at `j` is still active exactly when `i` meets it. */
  lemma MetIsActive(s: seq<Learning>, r: seq<Learning>, i: nat, j: nat)
    requires NamedIds(s) && Fates(s, r, i, j) && i < j < |s| && HasTurn(s, i)
    ensures r[j].IsActive() <==> Meets(s, i, j)
    ensures Meets(s, i, j) <==> s[j].IsActive() && forall p: nat :: !Beaten(s, p, j, i, j)
  {
    hide Duplicate, Fate, HasTurn, Beats, Meets, Beaten, NamedIds, Learning.IsActive;
    FateActive(s, j, r[j], i, j);
    MeetsIff(s, i, j);
  }

  lemma FatesNext(s: seq<Learning>, r: seq<Learning>, i: nat, j: nat)
    requires NamedIds(s) && Fates(s, r, i, j) && i < j < |s| && HasTurn(s, i)
    ensures Fates(s, if r[j].IsActive() then Merged(r, i, j) else r, i, j + 1)
    ensures Merges(s, i, j + 1) ==
              Merges(s, i, j) + (if r[j].IsActive() && Duplicate(r[i], r[j]) then {(i, j)} else {})
  {
    MetIsActive(s, r, i, j);
    FateFields(s, i, r[i], i, j);
    FateFields(s, j, r[j], i, j);
    SameDuplicate(s, r[i], r[j], i, j);
    if Beats(s, i, j) && Meets(s, i, j) { LaterBeaten(s, i, j); } else { LaterUnbeaten(s, r[j], i, j); }
    EarlierFate(s, r[i], i, j);
    forall q: nat | q < |s| && q != i && q != j ensures Fate(s, q, r[q], i, j + 1) { OtherFates(s, q, r[q], i, j); }
    LosesHere(s, i, j);
    MergesNext(s, i, j);
    hide Fate, HasTurn, Meets, Loses, Duplicate, Merges;
  }

  lemma LosesHere(s: seq<Learning>, i: nat, j: nat)
    requires i < j < |s|
    ensures Loses(s, i, j, i, j + 1) <==> Meets(s, i, j) && Duplicate(s[i], s[j]) && !Beats(s, i, j)
    ensures Beats(s, i, j) <==> Duplicate(s[i], s[j]) && s[i].Effectiveness() >= s[j].Effectiveness()
  {
    hide Meets, Duplicate;
  }

  lemma MergesNext(s: seq<Learning>, i: nat, j: nat)
    requires i < j < |s|
    ensures Merges(s, i, j + 1) == Merges(s, i, j) + (if Meets(s, i, j) && Duplicate(s[i], s[j]) then {(i, j)} else {})
    ensures (i, j) !in Merges(s, i, j)
  {
    hide Meets, Duplicate;
  }

  /** Between two rows nothing happens. */
  lemma RowEnds(s: seq<Learning>, r: seq<Learning>, i: nat)
    requires i < |s|
    requires if HasTurn(s, i) then Fates(s, r, i, |s|) else Fates(s, r, i, 0)
    ensures Fates(s, r, i + 1, 0)
    ensures HasTurn(s, i) ==> Merges(s, i + 1, 0) == Merges(s, i, |s|)
    ensures !HasTurn(s, i) ==> Merges(s, i + 1, 0) == Merges(s, i, 0)
  {
    hide HasTurn, Beats, Duplicate, Fates, Meets, Merges, Beaten, Loses;
    MergesRow(s, i);
    SameBeaten(s, i);
    SameFates(s, r, i, if HasTurn(s, i) then |s| else 0, i + 1, 0);
  }

  lemma SameBeaten(s: seq<Learning>, i: nat)
    requires i < |s|
    ensures var j := if HasTurn(s, i) then |s| else 0;
            && (forall p: nat, q: nat :: Beaten(s, p, q, i + 1, 0) <==> Beaten(s, p, q, i, j))
            && forall q: nat, k: nat :: Loses(s, q, k, i + 1, 0) <==> Loses(s, q, k, i, j)
  {
    hide HasTurn, Duplicate;
    forall p: nat, q: nat | Beats(s, p, q) ensures q < |s| {}
    forall p: nat, q: nat | Meets(s, p, q) ensures q < |s| && HasTurn(s, p) {}
    hide Beats, Meets;
  }

  lemma MergesRow(s: seq<Learning>, i: nat)
    requires i < |s|
    ensures HasTurn(s, i) ==> Merges(s, i + 1, 0) == Merges(s, i, |s|)
    ensures !HasTurn(s, i) ==> Merges(s, i + 1, 0) == Merges(s, i, 0)
  {
    hide HasTurn, Beats, Duplicate;
  }

  lemma SameFates(s: seq<Learning>, r: seq<Learning>, i: nat, j: nat, i': nat, j': nat)
    requires Fates(s, r, i, j)
    requires forall p: nat, q: nat :: Beaten(s, p, q, i', j') <==> Beaten(s, p, q, i, j)
    requires forall q: nat, k: nat :: Loses(s, q, k, i', j') <==> Loses(s, q, k, i, j)
    ensures Fates(s, r, i', j')
  {
    hide Beaten, Loses;
    forall p: nat, q: nat ensures FirstBeaten(s, p, q, i', j') <==> FirstBeaten(s, p, q, i, j) {}
    forall q: nat, k: nat ensures LastLoses(s, q, k, i', j') <==> LastLoses(s, q, k, i, j) {}
    hide FirstBeaten, LastLoses;
  }

  lemma RowStarts(s: seq<Learning>, r: seq<Learning>, i: nat)
    requires i < |s| && Fates(s, r, i, 0)
    ensures Fates(s, r, i, i + 1) && Merges(s, i, i + 1) == Merges(s, i, 0)
  {
    hide HasTurn, Duplicate;
    forall p: nat, q: nat ensures Beaten(s, p, q, i, i + 1) <==> Beaten(s, p, q, i, 0) {}
    forall q: nat, k: nat ensures Loses(s, q, k, i, i + 1) <==> Loses(s, q, k, i, 0) {}
    SameFates(s, r, i, 0, i, i + 1);
    hide Fates, Beaten, Loses;
  }

  /** An entry comes to its turn active exactly when it has one. */
  lemma TurnIsActive(s: seq<Learning>, r: seq<Learning>, i: nat)
    requires NamedIds(s) && Fates(s, r, i, 0) && i < |s|
    ensures r[i].IsActive() <==> HasTurn(s, i)
  {
    hide Fate, HasTurn, Duplicate, Beats, Beaten, NamedIds, Learning.IsActive;
    FateActive(s, i, r[i], i, 0);
    TurnIff(s, i);
  }

  lemma {:induction false} RowIs(s: seq<Learning>, r: seq<Learning>, i: nat, j: nat)
    requires NamedIds(s) && Fates(s, r, i, 0) && i < j <= |s| && HasTurn(s, i)
    ensures Fates(s, Row(r, i, j).0, i, j)
    ensures |Merges(s, i, j)| == |Merges(s, i, 0)| + Row(r, i, j).1
  {
    hide Fates, HasTurn, Merges, NamedIds, Learning.IsActive;
    FatesLength(s, r, i, 0);
    RowNext(r, i, j);
    if j == i + 1 {
      RowStarts(s, r, i);
    } else {
      RowIs(s, r, i, j - 1);
      FatesNext(s, Row(r, i, j - 1).0, i, j - 1);
      MergesNext(s, i, j - 1);
    }
  }

  lemma FatesLength(s: seq<Learning>, r: seq<Learning>, i: nat, j: nat)
    requires Fates(s, r, i, j)
    ensures |r| == |s|
  {
    hide Fate;
  }

  lemma {:induction false} PassIsUpTo(s: seq<Learning>, i: nat)
    requires NamedIds(s) && i <= |s|
    ensures Fates(s, Pass(s, i).0, i, 0) && |Merges(s, i, 0)| == Pass(s, i).1
  {
    hide Fates, HasTurn, Merges, NamedIds, Learning.IsActive, Row;
    if i == 0 {
      NothingYet(s);
    } else {
      PassIsUpTo(s, i - 1);
      PassNext(s, i);
      var r := Pass(s, i - 1).0;
      hide Pass;
      FatesLength(s, r, i - 1, 0);
      TurnIsActive(s, r, i - 1);
      if HasTurn(s, i - 1) {
        RowIs(s, r, i - 1, |s|);
        RowEnds(s, Row(r, i - 1, |s|).0, i - 1);
      } else {
        RowEnds(s, r, i - 1);
      }
    }
  }

  lemma NothingYet(s: seq<Learning>)
    ensures Fates(s, s, 0, 0) && Merges(s, 0, 0) == {}
  {
    hide HasTurn, Duplicate;
  }

  /** The outcome of a pass over entries with IDs, without running it: the fate of every entry, and how many pairs
      merge. An entry goes on merging in its turn after it has been superseded itself. */
  lemma PassIs(s: seq<Learning>)
    requires NamedIds(s)
    ensures Fates(s, Pass(s, |s|).0, |s|, 0) && Pass(s, |s|).1 == |Merges(s, |s|, 0)|
  {
    hide *;
    PassIsUpTo(s, |s|);
  }

  // ----- following supersessions -----

  /** Entry `y` is the one that `x` names as its superseder. */
  predicate SupersededBy(s: seq<Learning>, x: nat, y: nat)
    requires x < |s| && y < |s|
  {
    !s[x].IsActive() && s[x].supersededBy == s[y].id
  }

  /** After a pass, a superseder of an entry that was active before ranks above it and was active too. */
  lemma SupersederIsAbove(before: seq<Learning>, after: seq<Learning>, x: nat, y: nat)
    requires Deduplicated(before, after) && DistinctIds(before) && x < |before| && y < |before|
    requires before[x].IsActive() && SupersededBy(after, x, y)
    ensures before[y].IsActive() && Above(before, y, x)
  {
    hide Duplicate, NoneLeft;
    assert Accounted(before, after, x) && Accounted(before, after, y);
    var z: nat :| z < |before| && MaySupersede(before, z, x) && after[x] == before[x].(supersededBy := before[z].id);
    assert before[z].id == after[y].id == before[y].id;
    assert z == y;
  }

  /** The entries above an entry. */
  ghost function AboveSet(s: seq<Learning>, x: nat): set<nat>
    requires x < |s|
  {
    set y: nat | y < |s| && Above(s, y, x)
  }

  lemma AboveShrinks(s: seq<Learning>, y: nat, x: nat)
    requires x < |s| && y < |s| && Above(s, y, x)
    ensures AboveSet(s, y) < AboveSet(s, x) && |AboveSet(s, y)| < |AboveSet(s, x)|
  {
    assert y in AboveSet(s, x) && y !in AboveSet(s, y);
    assert AboveSet(s, x) == AboveSet(s, y) + (AboveSet(s, x) - AboveSet(s, y));
  }

  /** A chain of supersessions in `s` from `x`. */
  ghost predicate IsChain(s: seq<Learning>, chain: seq<nat>) {
    chain != [] && (forall k | 0 <= k < |chain| :: chain[k] < |s|)
    && forall k | 0 <= k < |chain| - 1 :: SupersededBy(s, chain[k], chain[k + 1])
  }

  /** Whatever chain of supersessions is followed from an entry active before the pass, it climbs strictly and visits
      only entries that were active, so it is shorter than the store is long and never returns. */
  lemma {:induction false} ChainsClimb(before: seq<Learning>, after: seq<Learning>, chain: seq<nat>)
    requires Deduplicated(before, after) && DistinctIds(before)
    requires IsChain(after, chain) && before[chain[0]].IsActive()
    ensures before[chain[|chain| - 1]].IsActive()
    ensures |chain| > 1 ==> Above(before, chain[|chain| - 1], chain[0])
    ensures |AboveSet(before, chain[|chain| - 1])| + |chain| - 1 <= |AboveSet(before, chain[0])|
  {
    if |chain| > 1 {
      var front, last, prev := chain[..|chain| - 1], chain[|chain| - 1], chain[|chain| - 2];
      assert SupersededBy(after, chain[|chain| - 2], chain[|chain| - 1]);
      assert IsChain(after, front) by {
        forall k | 0 <= k < |front| - 1 ensures SupersededBy(after, front[k], front[k + 1]) {
          assert SupersededBy(after, chain[k], chain[k + 1]);
        }
      }
      ChainsClimb(before, after, front);
      SupersederIsAbove(before, after, prev, last);
      AboveShrinks(before, last, prev);
    }
  }

  /** From every entry active before the pass, following `SupersededBy` ends, at an entry that is still active and
      at least as effective. */
  lemma {:induction false} ChainEndsActive(before: seq<Learning>, after: seq<Learning>, x: nat)
    returns (chain: seq<nat>)
    requires Deduplicated(before, after) && DistinctIds(before) && x < |before| && before[x].IsActive()
    ensures IsChain(after, chain) && chain[0] == x && after[chain[|chain| - 1]].IsActive()
    ensures after[chain[|chain| - 1]].Effectiveness() >= after[x].Effectiveness()
    decreases AboveSet(before, x)
  {
    AccountedFields(before, after, x);
    if after[x].IsActive() {
      chain := [x];
    } else {
      var y := SupersederExists(before, after, x);
      SupersederIsAbove(before, after, x, y);
      AboveShrinks(before, y, x);
      var rest := ChainEndsActive(before, after, y);
      AccountedFields(before, after, y);
      hide *;
      chain := [x] + rest;
      ChainFromSuperseder(after, x, rest);
    }
  }

  lemma ChainFromSuperseder(s: seq<Learning>, x: nat, rest: seq<nat>)
    requires IsChain(s, rest) && x < |s| && SupersededBy(s, x, rest[0])
    ensures IsChain(s, [x] + rest)
  {
    var chain := [x] + rest;
    forall k | 0 <= k < |chain| - 1 ensures SupersededBy(s, chain[k], chain[k + 1]) {
      if k > 0 { assert SupersededBy(s, rest[k - 1], rest[k]); }
    }
  }

  lemma SupersederExists(before: seq<Learning>, after: seq<Learning>, x: nat) returns (y: nat)
    requires Deduplicated(before, after) && x < |before| && before[x].IsActive() && !after[x].IsActive()
    ensures y < |before| && SupersededBy(after, x, y)
  {
    hide Duplicate, NoneLeft;
    assert Accounted(before, after, x);
    y :| y < |before| && MaySupersede(before, y, x) && after[x] == before[x].(supersededBy := before[y].id);
    assert Accounted(before, after, y);
  }

  /** No circle of supersessions arises among the entries that were active before the pass. */
  lemma NoCircle(before: seq<Learning>, after: seq<Learning>, circle: seq<nat>)
    requires Deduplicated(before, after) && DistinctIds(before)
    requires IsChain(after, circle) && |circle| > 1 && before[circle[0]].IsActive()
    ensures circle[|circle| - 1] != circle[0]
  {
    ChainsClimb(before, after, circle);
  }
}

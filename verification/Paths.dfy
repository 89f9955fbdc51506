/** File scopes: when two tasks touch overlapping paths. */
module Paths {
  import opened Strings

  // ----- normalizeScopedPath -----

  /** `strings.ReplaceAll(path, "\\\\", "/")`: every pair of backslashes, left to right, becomes a slash. */
  function ReplacePairs(p: string): (r: string) {
    if |p| >= 2 && p[0] == '\\' && p[1] == '\\' then "/" + ReplacePairs(p[2..])
    else if p == "" then ""
    else [p[0]] + ReplacePairs(p[1..])
  }

  predicate IsSlash(c: char) { c == '/' }

  function Normalize(path: string): string {
    var trimmed := Trim(ReplacePairs(path), IsSlash);
    if trimmed == "." then "" else trimmed
  }

  ghost predicate NoBackslashPair(p: string) {
    forall i | 0 <= i < |p| - 1 :: !(p[i] == '\\' && p[i + 1] == '\\')
  }

  lemma {:induction false} ReplacePairsLeavesNone(p: string)
    ensures NoBackslashPair(ReplacePairs(p))
    ensures ReplacePairs(p) != "" && ReplacePairs(p)[0] == '\\' ==> p[0] == '\\'
  {
    if |p| >= 2 && p[0] == '\\' && p[1] == '\\' {
      ReplacePairsLeavesNone(p[2..]);
    } else if p != "" {
      ReplacePairsLeavesNone(p[1..]);
    }
  }

  lemma {:induction false} ReplacePairsNoop(p: string)
    requires NoBackslashPair(p)
    ensures ReplacePairs(p) == p
  {
    if p != "" {
      ReplacePairsNoop(p[1..]);
    }
  }

  /** A path is clean when normalizing can change nothing: no edge slashes, no backslash pair, not ".". */
  ghost predicate Clean(p: string) {
    && NoBackslashPair(p)
    && p != "."
    && (p == "" || (p[0] != '/' && p[|p| - 1] != '/'))
  }

  lemma NormalizeCleans(path: string)
    ensures Clean(Normalize(path))
  {
    var replaced := ReplacePairs(path);
    ReplacePairsLeavesNone(path);
    TrimEnds(replaced, IsSlash);
  }

  lemma NormalizeFixesClean(p: string)
    requires Clean(p)
    ensures Normalize(p) == p
  {
    ReplacePairsNoop(p);
    TrimNothing(p, IsSlash);
  }

  /** The first pair of backslashes becomes a slash, and what is behind it is treated in the same way. */
  lemma {:induction false} ReplacesFirstPair(p: string, q: string)
    requires NoBackslashPair(p) && (p == "" || p[|p| - 1] != '\\')
    ensures ReplacePairs(p + "\\\\" + q) == p + "/" + ReplacePairs(q)
  {
    var whole := p + "\\\\" + q;
    if p == "" {
      assert whole == "\\\\" + q && whole[2..] == q;
    } else {
      assert whole[1..] == p[1..] + "\\\\" + q;
      assert whole[0] == p[0] && (|p| > 1 ==> whole[1] == p[1]);
      ReplacesFirstPair(p[1..], q);
      assert p == [p[0]] + p[1..];
    }
  }

  /** A backslash pair counts as a slash wherever it stands. */
  lemma PairIsSlash(p: string, q: string)
    requires NoBackslashPair(p) && (p == "" || p[|p| - 1] != '\\')
    ensures Normalize(p + "\\\\" + q) == Normalize(p + "/" + q)
  {
    ReplacesFirstPair(p, q);
    KeepsUpToSlash(p, q);
  }

  lemma {:induction false} KeepsUpToSlash(p: string, q: string)
    requires NoBackslashPair(p)
    ensures ReplacePairs(p + "/" + q) == p + "/" + ReplacePairs(q)
  {
    var whole := p + "/" + q;
    if p == "" {
      assert whole[1..] == q;
    } else {
      assert whole[1..] == p[1..] + "/" + q;
      assert whole[0] == p[0] && (|p| > 1 ==> whole[1] == p[1]);
      KeepsUpToSlash(p[1..], q);
      assert p == [p[0]] + p[1..];
    }
  }

  ghost predicate AllSlashes(s: string) {
    forall i | 0 <= i < |s| :: s[i] == '/'
  }

  /** Slashes around a path, however many, make no difference; a path of slashes, or "." between them, is no path. */
  lemma SlashesAround(a: string, p: string, b: string)
    requires AllSlashes(a) && AllSlashes(b) && (Clean(p) || p == ".")
    ensures Normalize(a + p + b) == if p == "." then "" else p
  {
    var whole := a + p + b;
    forall i | 0 <= i < |whole| - 1 ensures !(whole[i] == '\\' && whole[i + 1] == '\\') {
      if |a| <= i && i + 1 < |a| + |p| {
        assert whole[i] == p[i - |a|] && whole[i + 1] == p[i + 1 - |a|];
      } else if i < |a| {
        assert whole[i] == a[i];
      } else {
        assert whole[i + 1] == b[i + 1 - |a| - |p|];
      }
    }
    ReplacePairsNoop(whole);
    TrimCuts(a, p, b, IsSlash);
  }

  /** The scheduler normalizes one path up to three times; that is the same as once. */
  lemma NormalizeIdempotent(path: string)
    ensures Normalize(Normalize(path)) == Normalize(path)
  {
    NormalizeCleans(path);
    NormalizeFixesClean(Normalize(path));
  }

  // ----- pathsOverlap -----

  predicate Overlap(left: string, right: string) {
    var l, r := Normalize(left), Normalize(right);
    l != "" && r != "" && (l == r || r + "/" <= l || l + "/" <= r)
  }

  /** The slash-separated segments of a path. */
  function Segments(p: string): (r: seq<string>)
    ensures |r| >= 1
  {
    if p == "" then [""]
    else
      var rest := Segments(p[1..]);
      if p[0] == '/' then [""] + rest else [[p[0]] + rest[0]] + rest[1..]
  }

  lemma {:induction false} SegmentsOfJoin(a: string, b: string)
    ensures Segments(a + "/" + b) == Segments(a) + Segments(b)
  {
    var whole := a + "/" + b;
    if a == "" {
      assert whole[1..] == b;
    } else {
      assert whole[1..] == a[1..] + "/" + b;
      SegmentsOfJoin(a[1..], b);
    }
  }

  lemma EmptyHasOneEmptySegment(p: string)
    ensures Segments(p) == [""] <==> p == ""
  {
    if p != "" {
      if p[0] == '/' {
        assert |Segments(p)| >= 2;
      } else {
        assert |Segments(p)[0]| >= 1;
      }
    }
  }

  lemma {:induction false} SegmentsInjective(a: string, b: string)
    requires Segments(a) == Segments(b)
    ensures a == b
  {
    if a == "" || b == "" {
      EmptyHasOneEmptySegment(a);
      EmptyHasOneEmptySegment(b);
    } else {
      var ra, rb := Segments(a[1..]), Segments(b[1..]);
      assert (a[0] == '/') == (Segments(a)[0] == "") && (b[0] == '/') == (Segments(b)[0] == "");
      if a[0] == '/' {
        assert ra == Segments(a)[1..] && rb == Segments(b)[1..];
      } else {
        assert Segments(a)[0] == [a[0]] + ra[0] && Segments(b)[0] == [b[0]] + rb[0];
        assert a[0] == Segments(a)[0][0] == b[0];
        assert ra[0] == Segments(a)[0][1..] == rb[0];
        assert ra == [ra[0]] + Segments(a)[1..] && rb == [rb[0]] + Segments(b)[1..];
      }
      SegmentsInjective(a[1..], b[1..]);
      assert a == [a[0]] + a[1..] && b == [b[0]] + b[1..];
    }
  }

  function JoinSegments(parts: seq<string>): string
    requires parts != []
  {
    if |parts| == 1 then parts[0] else parts[0] + "/" + JoinSegments(parts[1..])
  }

  lemma {:induction false} JoinOfSegments(p: string)
    ensures JoinSegments(Segments(p)) == p
  {
    if p != "" {
      var rest := Segments(p[1..]);
      JoinOfSegments(p[1..]);
      if p[0] == '/' {
        assert Segments(p)[1..] == rest;
      } else if |rest| > 1 {
        assert Segments(p)[1..] == rest[1..];
      }
    }
  }

  lemma {:induction false} JoinOfAppend(a: seq<string>, b: seq<string>)
    requires a != [] && b != []
    ensures JoinSegments(a + b) == JoinSegments(a) + "/" + JoinSegments(b)
  {
    if |a| == 1 {
      assert (a + b)[1..] == b;
    } else {
      assert (a + b)[1..] == a[1..] + b;
      JoinOfAppend(a[1..], b);
    }
  }

  /** One path is, or lies inside, the other exactly when its segments extend the other's. */
  lemma InsideIffSegmentPrefix(outer: string, inner: string)
    ensures (inner == outer || outer + "/" <= inner) <==> Segments(outer) <= Segments(inner)
  {
    if outer + "/" <= inner {
      var b := inner[|outer| + 1..];
      assert inner == outer + "/" + b;
      SegmentsOfJoin(outer, b);
    }
    if Segments(outer) <= Segments(inner) {
      var more := Segments(inner)[|Segments(outer)|..];
      assert Segments(inner) == Segments(outer) + more;
      if more == [] {
        SegmentsInjective(outer, inner);
      } else {
        JoinOfAppend(Segments(outer), more);
        JoinOfSegments(outer);
        JoinOfSegments(inner);
        assert inner == outer + "/" + JoinSegments(more);
      }
    }
  }

  /** `pathsOverlap` is exactly "one path's segment list is a prefix of the other's". */
  lemma OverlapIffSegmentPrefix(left: string, right: string)
    ensures Overlap(left, right) <==>
              var l, r := Normalize(left), Normalize(right);
              l != "" && r != "" && (Segments(l) <= Segments(r) || Segments(r) <= Segments(l))
  {
    var l, r := Normalize(left), Normalize(right);
    InsideIffSegmentPrefix(l, r);
    InsideIffSegmentPrefix(r, l);
  }

  /** A directory, written with slashes around it or not, overlaps everything below it. */
  lemma DirectoryOverlaps(a: string, p: string, b: string, q: string)
    requires AllSlashes(a) && AllSlashes(b) && Clean(p) && p != ""
    ensures Overlap(a + p + b, p + "/" + q) && Overlap(p + "/" + q, a + p + b)
  {
    SlashesAround(a, p, b);
    KeepsUpToSlash(p, q);
    BelowDirectory(p, ReplacePairs(q));
  }

  lemma BelowDirectory(p: string, q: string)
    requires p != "" && p[0] != '/' && p[|p| - 1] != '/'
    ensures var t := Trim(p + "/" + q, IsSlash); t == p || p + "/" <= t
  {
    var whole := p + "/" + q;
    assert TrimLeft(whole, IsSlash) == whole;
    var b := CutRight(whole, IsSlash);
    var t := TrimRight(whole, IsSlash);
    TrimRightPrefix(whole, IsSlash);
    LongerThanCut(p, q, t, b);
    if |t| > |p| {
      assert t[..|p| + 1] == whole[..|p| + 1] == p + "/";
    } else {
      assert t == whole[..|p|] == p;
    }
  }

  lemma LongerThanCut(p: string, q: string, t: string, b: string)
    requires p != "" && p[|p| - 1] != '/' && p + "/" + q == t + b && AllCut(b, IsSlash)
    ensures |t| >= |p|
  {
    var whole := t + b;
    assert forall i | |t| <= i < |whole| :: whole[i] == b[i - |t|] && IsSlash(whole[i]);
    assert (p + "/" + q)[|p| - 1] == p[|p| - 1];
  }

  lemma OverlapNormalized(left: string, right: string)
    ensures Overlap(Normalize(left), right) == Overlap(left, right) == Overlap(left, Normalize(right))
  {
    NormalizeIdempotent(left);
    NormalizeIdempotent(right);
  }

  // ----- conflict paths of two scopes -----

  /** Some path of one scope overlaps some path of the other. */
  ghost predicate ScopesOverlap(left: seq<string>, right: seq<string>) {
    exists i, j | 0 <= i < |left| && 0 <= j < |right| :: Overlap(left[i], right[j])
  }

  lemma ScopesOverlapSymmetric(left: seq<string>, right: seq<string>)
    ensures ScopesOverlap(left, right) == ScopesOverlap(right, left)
  {
    forall i, j | 0 <= i < |left| && 0 <= j < |right|
      ensures Overlap(left[i], right[j]) == Overlap(right[j], left[i])
    {
    }
  }

  ghost predicate Mentions(paths: seq<string>, p: string) {
    p != "" && exists i | 0 <= i < |paths| :: p == Normalize(paths[i])
  }

  lemma MentionsFront(paths: seq<string>, p: string)
    requires paths != []
    ensures Mentions(paths, p) <==>
              Mentions(paths[..|paths| - 1], p) || (p != "" && p == Normalize(paths[|paths| - 1]))
  {
    var front := paths[..|paths| - 1];
    if Mentions(front, p) {
      var i :| 0 <= i < |front| && p == Normalize(front[i]);
      assert p == Normalize(paths[i]);
    }
    if Mentions(paths, p) {
      var i :| 0 <= i < |paths| && p == Normalize(paths[i]);
      if i < |front| { assert p == Normalize(front[i]); }
    }
  }

  /** The paths `normalizedConflictPaths` keeps, before it sorts them. */
  function Distinct(paths: seq<string>): (r: seq<string>)
    ensures forall p :: p in r <==> Mentions(paths, p)
    ensures forall i, j | 0 <= i < j < |r| :: r[i] != r[j]
  {
    if paths == [] then []
    else
      var last := Normalize(paths[|paths| - 1]);
      var kept := Distinct(paths[..|paths| - 1]);
      assert forall p :: Mentions(paths, p) <==>
                         Mentions(paths[..|paths| - 1], p) || (p != "" && p == last) by {
        forall p
          ensures Mentions(paths, p) <==> Mentions(paths[..|paths| - 1], p) || (p != "" && p == last)
        {
          MentionsFront(paths, p);
        }
      }
      if last == "" || last in kept then kept else kept + [last]
  }

  /** The same set of paths, each once, in string order. */
  function ConflictPaths(paths: seq<string>): (r: seq<string>) {
    Sorted(Distinct(paths))
  }

  lemma ConflictPathsMembers(paths: seq<string>, p: string)
    ensures p in ConflictPaths(paths) <==> Mentions(paths, p)
  {
    assert p in ConflictPaths(paths) <==> p in multiset(ConflictPaths(paths));
    assert p in Distinct(paths) <==> p in multiset(Distinct(paths));
  }

  /** `normalizedConflictPaths`. */
  method CollectConflictPaths(paths: seq<string>) returns (r: seq<string>)
    ensures r == ConflictPaths(paths)
  {
    if |paths| == 0 {
      return [];
    }
    var seen: set<string> := {};
    var normalized: seq<string> := [];
    for i := 0 to |paths|
      invariant normalized == Distinct(paths[..i])
      invariant forall p :: p in seen <==> p in normalized
    {
      assert paths[..i + 1][..i] == paths[..i];
      var path := Normalize(paths[i]);
      if path != "" && path !in seen {
        seen := seen + {path};
        normalized := normalized + [path];
      }
    }
    assert paths[..|paths|] == paths;
    r := Sorted(normalized);
  }

  /** `overlappingConflictPath`. */
  function OverlapPath(left: string, right: string): (r: Option<string>)
    ensures r.Some? <==> Overlap(left, right)
  {
    var l, r := Normalize(left), Normalize(right);
    if !Overlap(left, right) then None
    else if l == r then Some(l)
    else if r + "/" <= l then Some(l)
    else Some(r)
  }

  /** The path reported is the more deeply nested of the two. */
  lemma OverlapPathIsDeeper(left: string, right: string)
    requires Overlap(left, right)
    ensures var p := OverlapPath(left, right).value;
            (p == Normalize(left) || p == Normalize(right))
            && Segments(Normalize(left)) <= Segments(p) && Segments(Normalize(right)) <= Segments(p)
  {
    InsideIffSegmentPrefix(Normalize(left), Normalize(right));
    InsideIffSegmentPrefix(Normalize(right), Normalize(left));
  }

  /** The pair the search meets first: no pair before it, in row-major order, overlaps. */
  ghost predicate FirstOverlap(ls: seq<string>, rs: seq<string>, i: int, j: int) {
    && 0 <= i < |ls| && 0 <= j < |rs|
    && Overlap(ls[i], rs[j])
    && (forall a, b | 0 <= a < i && 0 <= b < |rs| :: !Overlap(ls[a], rs[b]))
    && (forall b | 0 <= b < j :: !Overlap(ls[i], rs[b]))
  }

  lemma ScopesOverlapOnConflictPaths(left: seq<string>, right: seq<string>)
    ensures ScopesOverlap(ConflictPaths(left), ConflictPaths(right)) <==> ScopesOverlap(left, right)
  {
    var ls, rs := ConflictPaths(left), ConflictPaths(right);
    if i, j :| 0 <= i < |ls| && 0 <= j < |rs| && Overlap(ls[i], rs[j]) {
      ConflictPathsMembers(left, ls[i]);
      ConflictPathsMembers(right, rs[j]);
      var a :| 0 <= a < |left| && ls[i] == Normalize(left[a]);
      var b :| 0 <= b < |right| && rs[j] == Normalize(right[b]);
      OverlapNormalized(left[a], rs[j]);
      OverlapNormalized(left[a], right[b]);
      assert Overlap(left[a], right[b]);
    }
    if a, b :| 0 <= a < |left| && 0 <= b < |right| && Overlap(left[a], right[b]) {
      ConflictPathsMembers(left, Normalize(left[a]));
      ConflictPathsMembers(right, Normalize(right[b]));
      var i :| 0 <= i < |ls| && ls[i] == Normalize(left[a]);
      var j :| 0 <= j < |rs| && rs[j] == Normalize(right[b]);
      OverlapNormalized(left[a], right[b]);
      OverlapNormalized(ls[i], right[b]);
      assert Overlap(ls[i], rs[j]);
    }
  }

  /** `r` is what the search over the sorted paths must report. */
  ghost predicate Reported(ls: seq<string>, rs: seq<string>, r: Option<string>) {
    match r
    case None => forall i, j | 0 <= i < |ls| && 0 <= j < |rs| :: !Overlap(ls[i], rs[j])
    case Some(p) => exists i, j :: FirstOverlap(ls, rs, i, j) && Some(p) == OverlapPath(ls[i], rs[j])
  }

  /** `ConflictPath` reports a path iff some pair of the two scopes overlaps, and then the deeper
      path of the first overlapping pair in sorted order. */
  method ConflictPath(left: seq<string>, right: seq<string>) returns (r: Option<string>)
    ensures r.Some? <==> ScopesOverlap(left, right)
    ensures Reported(ConflictPaths(left), ConflictPaths(right), r)
  {
    var ls := CollectConflictPaths(left);
    var rs := CollectConflictPaths(right);
    r := SearchOverlap(ls, rs);
    ScopesOverlapOnConflictPaths(left, right);
    if r.Some? {
      ghost var i, j :| FirstOverlap(ls, rs, i, j);
      assert ScopesOverlap(ls, rs);
    }
  }

  method SearchOverlap(ls: seq<string>, rs: seq<string>) returns (r: Option<string>)
    ensures Reported(ls, rs, r)
  {
    for i := 0 to |ls|
      invariant forall a, b | 0 <= a < i && 0 <= b < |rs| :: !Overlap(ls[a], rs[b])
    {
      for j := 0 to |rs|
        invariant forall b | 0 <= b < j :: !Overlap(ls[i], rs[b])
      {
        if Overlap(ls[i], rs[j]) {
          assert FirstOverlap(ls, rs, i, j);
          return OverlapPath(ls[i], rs[j]);
        }
      }
    }
    r := None;
  }
}

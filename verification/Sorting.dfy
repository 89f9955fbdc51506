/** Insertion sort by a comparison, and why its result does not depend on the input order. */
module Sorting {

  /** `less` is a strict total order on the elements of `s`. */
  ghost predicate StrictTotalOn<T(!new)>(less: (T, T) -> bool, s: multiset<T>) {
    && (forall x {:trigger less(x, x)} | x in s :: !less(x, x))
    && (forall x, y {:trigger less(x, y)} | x in s && y in s && x != y :: less(x, y) || less(y, x))
    && (forall x, y, z {:trigger less(x, y), less(y, z)} |
          x in s && y in s && z in s && less(x, y) && less(y, z) :: less(x, z))
  }

  /** No later element belongs before an earlier one. */
  ghost predicate SortedBy<T>(less: (T, T) -> bool, s: seq<T>) {
    forall i, j | 0 <= i < j < |s| :: !less(s[j], s[i])
  }

  function InsertBy<T>(less: (T, T) -> bool, x: T, s: seq<T>): (r: seq<T>)
    ensures multiset(r) == multiset(s) + multiset{x}
  {
    if s == [] then [x]
    else if less(x, s[0]) then [x] + s
    else
      assert s == [s[0]] + s[1..];
      [s[0]] + InsertBy(less, x, s[1..])
  }

  function SortBy<T>(less: (T, T) -> bool, s: seq<T>): (r: seq<T>)
    ensures multiset(r) == multiset(s)
  {
    if s == [] then []
    else
      assert s == s[..|s| - 1] + [s[|s| - 1]];
      InsertBy(less, s[|s| - 1], SortBy(less, s[..|s| - 1]))
  }

  lemma PrependSorted<T>(less: (T, T) -> bool, x: T, s: seq<T>)
    requires SortedBy(less, s)
    requires forall i | 0 <= i < |s| :: !less(s[i], x)
    ensures SortedBy(less, [x] + s)
  {
    var r := [x] + s;
    forall i, j | 0 <= i < j < |r|
      ensures !less(r[j], r[i])
    {
      assert r[j] == s[j - 1];
    }
  }

  /** `all` is any collection, with `x` and the elements of `s` in it, that `less` orders totally. */
  lemma {:induction false} InsertKeepsSorted<T(!new)>(less: (T, T) -> bool, x: T, s: seq<T>, all: multiset<T>)
    requires StrictTotalOn(less, all) && x in all && forall i | 0 <= i < |s| :: s[i] in all
    requires SortedBy(less, s)
    ensures SortedBy(less, InsertBy(less, x, s))
  {
    if s == [] {
    } else if less(x, s[0]) {
      forall j | 0 <= j < |s|
        ensures !less(s[j], x)
      {
        if less(s[j], x) {
          assert false;
        }
      }
      PrependSorted(less, x, s);
    } else {
      var rest := InsertBy(less, x, s[1..]);
      InsertKeepsSorted(less, x, s[1..], all);
      forall i | 0 <= i < |rest|
        ensures !less(rest[i], s[0])
      {
        assert rest[i] in multiset(rest);
        assert rest[i] == x || rest[i] in s[1..];
      }
      PrependSorted(less, s[0], rest);
    }
  }

  lemma {:induction false} SortedOn<T(!new)>(less: (T, T) -> bool, s: seq<T>, all: multiset<T>)
    requires StrictTotalOn(less, all) && forall i | 0 <= i < |s| :: s[i] in all
    ensures SortedBy(less, SortBy(less, s))
  {
    if s != [] {
      var front := SortBy(less, s[..|s| - 1]);
      SortedOn(less, s[..|s| - 1], all);
      forall i | 0 <= i < |front|
        ensures front[i] in all
      {
        assert front[i] in multiset(front);
        assert front[i] in s[..|s| - 1];
      }
      InsertKeepsSorted(less, s[|s| - 1], front, all);
    }
  }

  lemma SortBySorts<T(!new)>(less: (T, T) -> bool, s: seq<T>)
    requires StrictTotalOn(less, multiset(s))
    ensures SortedBy(less, SortBy(less, s))
  {
    SortedOn(less, s, multiset(s));
  }

  lemma TailSorted<T>(less: (T, T) -> bool, s: seq<T>)
    requires s != [] && SortedBy(less, s)
    ensures SortedBy(less, s[1..])
  {
  }

  lemma TailElements<T>(a: seq<T>)
    requires a != []
    ensures multiset(a[1..]) == multiset(a) - multiset{a[0]}
  {
    assert a == [a[0]] + a[1..];
  }

  lemma SameFirst<T(!new)>(less: (T, T) -> bool, a: seq<T>, b: seq<T>, all: multiset<T>)
    requires a != [] && b != [] && multiset(a) == multiset(b)
    requires StrictTotalOn(less, all) && forall i | 0 <= i < |a| :: a[i] in all
    requires SortedBy(less, a) && SortedBy(less, b)
    ensures a[0] == b[0]
  {
    assert a[0] in multiset(b) && b[0] in multiset(a);
    var i :| 0 <= i < |b| && b[i] == a[0];
    var j :| 0 <= j < |a| && a[j] == b[0];
    if a[0] != b[0] {
      assert false;
    }
  }

  lemma {:induction false} SortedUniqueIn<T(!new)>(less: (T, T) -> bool, a: seq<T>, b: seq<T>, all: multiset<T>)
    requires multiset(a) == multiset(b)
    requires StrictTotalOn(less, all) && forall i | 0 <= i < |a| :: a[i] in all
    requires SortedBy(less, a) && SortedBy(less, b)
    ensures a == b
  {
    hide StrictTotalOn, SortedBy;
    assert |a| == |multiset(a)| == |multiset(b)| == |b|;
    if a != [] {
      SameFirst(less, a, b, all);
      TailElements(a);
      TailElements(b);
      TailSorted(less, a);
      TailSorted(less, b);
      SortedUniqueIn(less, a[1..], b[1..], all);
      assert a == [a[0]] + a[1..] && b == [b[0]] + b[1..];
    }
  }

  /** Two sorted arrangements of the same elements are the same sequence. */
  lemma SortedUnique<T(!new)>(less: (T, T) -> bool, a: seq<T>, b: seq<T>)
    requires multiset(a) == multiset(b)
    requires StrictTotalOn(less, multiset(a))
    requires SortedBy(less, a) && SortedBy(less, b)
    ensures a == b
  {
    SortedUniqueIn(less, a, b, multiset(a));
  }
}

/** Go's string helpers, on `string` as a sequence of characters. */
module Strings {
  import opened Sorting

  datatype Option<+T> = None | Some(value: T)

  /** Go's `<` on strings. */
  predicate Less(a: string, b: string) {
    if b == "" then false
    else if a == "" then true
    else a[0] < b[0] || (a[0] == b[0] && Less(a[1..], b[1..]))
  }

  lemma {:induction false} LessIrreflexive(a: string)
    ensures !Less(a, a)
  {
    if a != "" { LessIrreflexive(a[1..]); }
  }

  lemma {:induction false} LessTotal(a: string, b: string)
    requires a != b
    ensures Less(a, b) || Less(b, a)
  {
    if a != "" && b != "" && a[0] == b[0] {
      assert a == [a[0]] + a[1..] && b == [b[0]] + b[1..];
      LessTotal(a[1..], b[1..]);
    }
  }

  lemma {:induction false} LessTransitive(a: string, b: string, c: string)
    requires Less(a, b) && Less(b, c)
    ensures Less(a, c)
  {
    if a != "" && a[0] == b[0] == c[0] {
      LessTransitive(a[1..], b[1..], c[1..]);
    }
  }

  /** The first differing character decides, and a proper prefix comes first. */
  ghost predicate FirstDiffers(a: string, b: string, k: nat) {
    k < |b| && k <= |a| && a[..k] == b[..k] && (k == |a| || a[k] < b[k])
  }

  lemma {:induction false} LessIff(a: string, b: string)
    ensures Less(a, b) <==> exists k :: FirstDiffers(a, b, k)
  {
    if a == "" || b == "" {
      if a == "" && b != "" { assert FirstDiffers(a, b, 0); }
    } else {
      LessIff(a[1..], b[1..]);
      if a[0] < b[0] { assert FirstDiffers(a, b, 0); }
      if k: nat :| a[0] == b[0] && FirstDiffers(a[1..], b[1..], k) {
        assert a[..k + 1] == [a[0]] + a[1..][..k] && b[..k + 1] == [b[0]] + b[1..][..k];
        assert FirstDiffers(a, b, k + 1);
      }
      if k: nat :| FirstDiffers(a, b, k) && k > 0 {
        assert a[..k][0] == b[..k][0];
        assert a[1..][..k - 1] == a[..k][1..] && b[1..][..k - 1] == b[..k][1..];
        assert FirstDiffers(a[1..], b[1..], k - 1);
      }
    }
  }

  lemma {:induction false} LessBehind(p: string, a: string, b: string)
    ensures Less(p + a, p + b) <==> Less(a, b)
  {
    if p == "" {
      assert p + a == a && p + b == b;
    } else {
      assert (p + a)[1..] == p[1..] + a && (p + b)[1..] == p[1..] + b;
      LessBehind(p[1..], a, b);
    }
  }

  lemma LessIsStrictTotal(s: multiset<string>)
    ensures StrictTotalOn(Less, s)
  {
    forall x | x in s ensures !Less(x, x) { LessIrreflexive(x); }
    forall x, y | x in s && y in s && x != y ensures Less(x, y) || Less(y, x) { LessTotal(x, y); }
    forall x, y, z | x in s && y in s && z in s && Less(x, y) && Less(y, z) ensures Less(x, z) {
      LessTransitive(x, y, z);
    }
  }

  /** `sort.Strings`. */
  function Sorted(s: seq<string>): (r: seq<string>)
    ensures multiset(r) == multiset(s)
  {
    SortBy(Less, s)
  }

  lemma SortedInOrder(s: seq<string>)
    ensures SortedBy(Less, Sorted(s))
  {
    LessIsStrictTotal(multiset(s));
    SortBySorts(Less, s);
  }

  /** ASCII part of `strings.ToLower`. */
  function LowerChar(c: char): char {
    if 'A' <= c <= 'Z' then c - 'A' + 'a' else c
  }

  function Lower(s: string): (r: string)
    ensures |r| == |s|
  {
    seq(|s|, i requires 0 <= i < |s| => LowerChar(s[i]))
  }

  /** No capital is left: each has become its small letter, and every other character is as it was. */
  lemma LowerCase(s: string)
    ensures forall i | 0 <= i < |s| :: !('A' <= Lower(s)[i] <= 'Z')
    ensures forall i | 0 <= i < |s| && 'A' <= s[i] <= 'Z' :: Lower(s)[i] as int == s[i] as int + 32
    ensures forall i | 0 <= i < |s| && !('A' <= s[i] <= 'Z') :: Lower(s)[i] == s[i]
  {
    forall i | 0 <= i < |s| && 'A' <= s[i] <= 'Z' ensures Lower(s)[i] as int == s[i] as int + 32 {
      assert Lower(s)[i] == LowerChar(s[i]);
    }
  }

  /** Two texts differ at most in the case of letters. */
  ghost predicate SameButCase(a: string, b: string) {
    |a| == |b| && forall i | 0 <= i < |a| ::
      a[i] == b[i] || ('A' <= a[i] <= 'Z' && b[i] as int == a[i] as int + 32)
      || ('A' <= b[i] <= 'Z' && a[i] as int == b[i] as int + 32)
  }

  lemma SameLowerIff(a: string, b: string)
    ensures Lower(a) == Lower(b) <==> SameButCase(a, b)
  {
    LowerCase(a);
    LowerCase(b);
    if Lower(a) == Lower(b) {
      assert |a| == |Lower(a)| == |Lower(b)| == |b|;
      forall i | 0 <= i < |a|
        ensures a[i] == b[i] || ('A' <= a[i] <= 'Z' && b[i] as int == a[i] as int + 32)
                || ('A' <= b[i] <= 'Z' && a[i] as int == b[i] as int + 32)
      {
        assert Lower(a)[i] == Lower(b)[i];
      }
    }
    if SameButCase(a, b) {
      forall i | 0 <= i < |a| ensures Lower(a)[i] == Lower(b)[i] {
        assert 'a' as int == 'A' as int + 32;
      }
    }
  }

  lemma LowerConcat(a: string, b: string)
    ensures Lower(a + b) == Lower(a) + Lower(b)
  {
  }

  lemma LowerIdempotent(s: string)
    ensures Lower(Lower(s)) == Lower(s)
  {
  }

  /** `unicode.IsSpace`, the characters `strings.TrimSpace` removes. */
  predicate IsSpace(c: char) {
    c == '\t' || c == '\n' || c == '\U{0B}' || c == '\U{0C}' || c == '\r' || c == ' '
    || c == '\U{85}' || c == '\U{A0}' || c == '\U{1680}' || '\U{2000}' <= c <= '\U{200A}'
    || c == '\U{2028}' || c == '\U{2029}' || c == '\U{202F}' || c == '\U{205F}' || c == '\U{3000}'
  }

  /** Of the ASCII characters, the blank and the five between the tab and the carriage return. */
  lemma AsciiSpaces(c: char)
    requires c < '\U{80}'
    ensures IsSpace(c) <==> c == ' ' || 9 <= c as int <= 13
  {
  }

  function TrimLeft(s: string, cut: char -> bool): string {
    if s != "" && cut(s[0]) then TrimLeft(s[1..], cut) else s
  }

  function TrimRight(s: string, cut: char -> bool): string {
    if s != "" && cut(s[|s| - 1]) then TrimRight(s[..|s| - 1], cut) else s
  }

  function Trim(s: string, cut: char -> bool): string {
    TrimRight(TrimLeft(s, cut), cut)
  }

  function TrimSpace(s: string): string {
    Trim(s, IsSpace)
  }

  lemma {:induction false} TrimRightPrefix(s: string, cut: char -> bool)
    ensures TrimRight(s, cut) <= s
    ensures TrimRight(s, cut) == "" || !cut(TrimRight(s, cut)[|TrimRight(s, cut)| - 1])
  {
    if s != "" && cut(s[|s| - 1]) { TrimRightPrefix(s[..|s| - 1], cut); }
  }

  lemma {:induction false} TrimLeftSuffix(s: string, cut: char -> bool)
    ensures exists k :: 0 <= k <= |s| && TrimLeft(s, cut) == s[k..]
    ensures TrimLeft(s, cut) == "" || !cut(TrimLeft(s, cut)[0])
  {
    if s != "" && cut(s[0]) {
      TrimLeftSuffix(s[1..], cut);
      var k :| 0 <= k <= |s[1..]| && TrimLeft(s[1..], cut) == s[1..][k..];
      assert TrimLeft(s, cut) == s[k + 1..];
    } else {
      assert TrimLeft(s, cut) == s[0..];
    }
  }

  ghost predicate AllCut(s: string, cut: char -> bool) {
    forall i | 0 <= i < |s| :: cut(s[i])
  }

  /** What a trim leaves is a slice of the input that neither starts nor ends with a cut character. */
  lemma TrimEnds(s: string, cut: char -> bool)
    ensures exists i, j :: 0 <= i <= j <= |s| && Trim(s, cut) == s[i..j]
    ensures Trim(s, cut) == "" || (!cut(Trim(s, cut)[0]) && !cut(Trim(s, cut)[|Trim(s, cut)| - 1]))
  {
    hide TrimLeft, TrimRight;
    var l := TrimLeft(s, cut);
    TrimLeftSuffix(s, cut);
    TrimRightPrefix(l, cut);
    var k :| 0 <= k <= |s| && l == s[k..];
    assert Trim(s, cut) == s[k..k + |Trim(s, cut)|];
  }

  lemma {:induction false} TrimLeftCuts(a: string, s: string, cut: char -> bool)
    requires AllCut(a, cut) && (s == "" || !cut(s[0]))
    ensures TrimLeft(a + s, cut) == s
  {
    if a == "" {
      assert a + s == s;
    } else {
      assert (a + s)[1..] == a[1..] + s;
      TrimLeftCuts(a[1..], s, cut);
    }
  }

  lemma {:induction false} TrimRightCuts(s: string, b: string, cut: char -> bool)
    requires AllCut(b, cut) && (s == "" || !cut(s[|s| - 1]))
    ensures TrimRight(s + b, cut) == s
  {
    if b == "" {
      assert s + b == s;
    } else {
      assert (s + b)[..|s + b| - 1] == s + b[..|b| - 1];
      TrimRightCuts(s, b[..|b| - 1], cut);
    }
  }

  /** A trim removes all the cut characters around a text, and nothing else. */
  lemma TrimCuts(a: string, s: string, b: string, cut: char -> bool)
    requires AllCut(a, cut) && AllCut(b, cut) && (s == "" || (!cut(s[0]) && !cut(s[|s| - 1])))
    ensures Trim(a + s + b, cut) == s
  {
    if s == "" {
      TrimLeftCuts(a + b, "", cut);
      assert a + s + b == a + b + "";
    } else {
      TrimLeftCuts(a, s + b, cut);
      assert a + s + b == a + (s + b);
      TrimRightCuts(s, b, cut);
    }
  }

  /** Every text has such parts. */
  lemma TrimParts(s: string, cut: char -> bool) returns (a: string, b: string)
    ensures s == a + Trim(s, cut) + b && AllCut(a, cut) && AllCut(b, cut)
  {
    var l := TrimLeft(s, cut);
    a := CutLeft(s, cut);
    b := CutRight(l, cut);
  }

  lemma {:induction false} CutLeft(s: string, cut: char -> bool) returns (a: string)
    ensures s == a + TrimLeft(s, cut) && AllCut(a, cut)
  {
    if s != "" && cut(s[0]) {
      var rest := CutLeft(s[1..], cut);
      a := [s[0]] + rest;
      assert s == [s[0]] + s[1..];
    } else {
      a := "";
    }
  }

  lemma {:induction false} CutRight(s: string, cut: char -> bool) returns (b: string)
    ensures s == TrimRight(s, cut) + b && AllCut(b, cut)
  {
    if s != "" && cut(s[|s| - 1]) {
      var rest := CutRight(s[..|s| - 1], cut);
      b := rest + [s[|s| - 1]];
      assert s == s[..|s| - 1] + [s[|s| - 1]];
    } else {
      b := "";
    }
  }

  lemma TrimNothing(s: string, cut: char -> bool)
    requires s == "" || (!cut(s[0]) && !cut(s[|s| - 1]))
    ensures Trim(s, cut) == s
  {
  }

  /** `strings.HasPrefix` is Dafny's `<=`; this is `strings.Contains` at one position. */
  predicate OccursAt(s: string, sub: string, i: int) {
    0 <= i && i + |sub| <= |s| && s[i..i + |sub|] == sub
  }

  predicate Contains(s: string, sub: string) {
    exists i | 0 <= i <= |s| :: OccursAt(s, sub, i)
  }

  lemma ContainsIff(s: string, sub: string)
    ensures Contains(s, sub) <==> exists a, b :: s == a + sub + b
  {
    if Contains(s, sub) {
      var i :| 0 <= i <= |s| && OccursAt(s, sub, i);
      assert s == s[..i] + sub + s[i + |sub|..];
    }
    if a, b :| s == a + sub + b {
      assert s[|a|..|a| + |sub|] == sub;
      assert OccursAt(s, sub, |a|);
    }
  }

  /** A word, in whatever case of letters, occurs in the text. */
  ghost predicate Says(text: string, word: string) {
    exists a, w, b :: text == a + w + b && SameButCase(w, word)
  }

  lemma SaysIff(text: string, word: string)
    requires forall i | 0 <= i < |word| :: !('A' <= word[i] <= 'Z')
    ensures Contains(Lower(text), word) <==> Says(text, word)
  {
    LowerCase(word);
    assert Lower(word) == word;
    if Contains(Lower(text), word) {
      var i :| 0 <= i <= |Lower(text)| && OccursAt(Lower(text), word, i);
      var a, w, b := text[..i], text[i..i + |word|], text[i + |word|..];
      assert text == a + w + b;
      assert Lower(w) == Lower(text)[i..i + |word|];
      SameLowerIff(w, word);
    }
    if a, w, b :| text == a + w + b && SameButCase(w, word) {
      SameLowerIff(w, word);
      LowerConcat(a + w, b);
      LowerConcat(a, w);
      ContainsIff(Lower(text), word);
    }
  }

  /** `strings.Index`: the least position at which `sub` occurs, or -1. */
  function IndexFrom(s: string, sub: string, from: nat): (r: int)
    requires from <= |s| + 1
    ensures r == -1 || from <= r <= |s|
    ensures r >= 0 ==> OccursAt(s, sub, r)
    ensures forall i | from <= i && (r < 0 || i < r) :: !OccursAt(s, sub, i)
    decreases |s| + 1 - from
  {
    if from > |s| then -1
    else if OccursAt(s, sub, from) then from
    else IndexFrom(s, sub, from + 1)
  }

  function Index(s: string, sub: string): (r: int)
    ensures r == -1 || 0 <= r <= |s|
    ensures r >= 0 ==> OccursAt(s, sub, r)
    ensures forall i | 0 <= i && (r < 0 || i < r) :: !OccursAt(s, sub, i)
  {
    IndexFrom(s, sub, 0)
  }

  /** Decimal rendering of a natural number (`%d`). */
  function Itoa(n: nat): (r: string)
    ensures r != "" && forall i | 0 <= i < |r| :: '0' <= r[i] <= '9'
  {
    if n < 10 then [('0' as int + n) as char] else Itoa(n / 10) + [('0' as int + n % 10) as char]
  }

  const MAX_INT64: int := 0x7FFF_FFFF_FFFF_FFFF

  /** The value of a digit string, or None when a character is not a digit. */
  function Digits(s: string): Option<nat> {
    if s == "" then Some(0)
    else
      var c := s[|s| - 1];
      match Digits(s[..|s| - 1])
      case None => None
      case Some(v) => if '0' <= c <= '9' then Some(10 * v + (c as int - '0' as int)) else None
  }

  /** `strconv.Atoi` on a 64-bit platform: an optional sign, at least one digit, no overflow. */
  function Atoi(s: string): Option<int> {
    var digits := if s != "" && (s[0] == '-' || s[0] == '+') then s[1..] else s;
    var negative := s != "" && s[0] == '-';
    if digits == "" then None
    else
      match Digits(digits)
      case None => None
      case Some(v) =>
        var value: int := if negative then 0 - v as int else v as int;
        if -MAX_INT64 - 1 <= value <= MAX_INT64 then Some(value) else None
  }

  lemma {:induction false} DigitsOfItoa(n: nat)
    ensures Digits(Itoa(n)) == Some(n)
  {
    var r := Itoa(n);
    if n < 10 {
      assert r[..|r| - 1] == "";
      assert Digits("") == Some(0);
    } else {
      DigitsOfItoa(n / 10);
      assert r[..|r| - 1] == Itoa(n / 10);
    }
  }

  lemma AtoiOfItoa(n: nat)
    requires n <= MAX_INT64
    ensures Atoi(Itoa(n)) == Some(n)
  {
    DigitsOfItoa(n);
  }

  ghost predicate AllDigits(s: string) {
    forall i | 0 <= i < |s| :: '0' <= s[i] <= '9'
  }

  function Power(n: nat): nat {
    if n == 0 then 1 else 10 * Power(n - 1)
  }

  /** Only digit strings have a value, in which each digit counts by its place. */
  lemma {:induction false} DigitsIff(s: string)
    ensures Digits(s).Some? <==> AllDigits(s)
  {
    if s != "" {
      DigitsIff(s[..|s| - 1]);
      assert s == s[..|s| - 1] + [s[|s| - 1]];
      assert Digits(s).Some? <==> Digits(s[..|s| - 1]).Some? && '0' <= s[|s| - 1] <= '9';
    }
  }

  lemma {:induction false} DigitPlaces(c: char, s: string)
    requires '0' <= c <= '9' && AllDigits(s)
    ensures Digits(s).Some? && Digits([c] + s) == Some((c as int - '0' as int) * Power(|s|) + Digits(s).value)
  {
    DigitsIff(s);
    if s == "" {
      assert [c] + s == [c] && [c][..0] == "";
    } else {
      var front, d := s[..|s| - 1], c as int - '0' as int;
      DigitPlaces(c, front);
      DigitsStep(s);
      DigitsStep([c] + s);
      assert ([c] + s)[..|s|] == [c] + front;
      PowerStep(d, |s|);
    }
  }

  lemma DigitsStep(s: string)
    requires s != "" && AllDigits(s)
    ensures Digits(s).Some? && Digits(s[..|s| - 1]).Some?
    ensures Digits(s).value == 10 * Digits(s[..|s| - 1]).value + (s[|s| - 1] as int - '0' as int)
  {
    DigitsIff(s);
    DigitsIff(s[..|s| - 1]);
  }

  lemma PowerStep(d: int, n: nat)
    requires n > 0
    ensures d * Power(n) == 10 * (d * Power(n - 1))
  {
  }

  /** `strconv.Atoi` reads a digit string with at most one sign in front, within 64 bits. */
  lemma AtoiReads(s: string)
    requires s != "" && AllDigits(s)
    ensures Digits(s).Some?
    ensures var v: int := Digits(s).value;
            && Atoi(s) == Atoi("+" + s) == (if v <= MAX_INT64 then Some(v) else None)
            && Atoi("-" + s) == if v <= MAX_INT64 + 1 then Some(-v) else None
  {
    DigitsIff(s);
    assert ("+" + s)[1..] == s && ("-" + s)[1..] == s;
  }

  lemma AtoiRefuses(s: string)
    ensures Atoi(s).Some? ==> exists d :: d != "" && AllDigits(d) && (s == d || s == "+" + d || s == "-" + d)
  {
    if Atoi(s).Some? {
      var d := if s != "" && (s[0] == '-' || s[0] == '+') then s[1..] else s;
      DigitsIff(d);
      assert s == d || s == [s[0]] + d;
    }
  }
}

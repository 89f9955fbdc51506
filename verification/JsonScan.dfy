/** The two scanners that find the end of a JSON value in free text: one with a stack, one with a counter.
    One character stands for one byte of the text. */
module JsonScan {
  import opened Strings

  // ----- what both scanners skip: string literals (section 7 of RFC 8259) -----

  /** Where in the text a scanner is: outside strings, inside one, or right after a backslash inside one. */
  datatype Place = Outside | Inside | Escaped

  function Step(p: Place, ch: char): Place {
    match p
    case Outside => if ch == '"' then Inside else Outside
    case Inside => if ch == '\\' then Escaped else if ch == '"' then Outside else Inside
    case Escaped => Inside
  }

  function PlaceAfter(s: string): Place {
    if s == "" then Outside else Step(PlaceAfter(s[..|s| - 1]), s[|s| - 1])
  }

  predicate IsBracket(ch: char) {
    ch == '{' || ch == '[' || ch == '}' || ch == ']'
  }

  /** The brackets of a text that are not inside strings. */
  function Brackets(s: string): string {
    if s == "" then ""
    else
      var front, ch := s[..|s| - 1], s[|s| - 1];
      if PlaceAfter(front) == Outside && IsBracket(ch) then Brackets(front) + [ch] else Brackets(front)
  }

  // ----- proper nesting -----

  function Closer(open: char): char {
    if open == '{' then '}' else ']'
  }

  predicate IsOpen(ch: char) {
    ch == '{' || ch == '['
  }

  /** Properly nested: nothing, or a matched pair around something nested, followed by something nested. */
  ghost predicate Nested(b: string)
    decreases |b|
  {
    b == "" ||
    exists i :: 0 < i < |b| && IsOpen(b[0]) && b[i] == Closer(b[0]) && Nested(b[1..i]) && Nested(b[i + 1..])
  }

  /** Reads brackets onto a stack of awaited closers; None when one does not fit. */
  function Feed(stack: string, b: string): Option<string> {
    if b == "" then Some(stack)
    else
      match Feed(stack, b[..|b| - 1])
      case None => None
      case Some(st) => Push(st, b[|b| - 1])
  }

  function Push(stack: string, ch: char): Option<string> {
    if IsOpen(ch) then Some(stack + [Closer(ch)])
    else if stack != "" && stack[|stack| - 1] == ch then Some(stack[..|stack| - 1])
    else None
  }

  lemma {:induction false} FeedConcat(stack: string, a: string, b: string)
    ensures Feed(stack, a + b) == match Feed(stack, a) case None => None case Some(st) => Feed(st, b)
  {
    if b == "" {
      assert a + b == a;
    } else {
      assert (a + b)[..|a + b| - 1] == a + b[..|b| - 1];
      FeedConcat(stack, a, b[..|b| - 1]);
    }
  }

  lemma FeedOne(stack: string, ch: char)
    ensures Feed(stack, [ch]) == Push(stack, ch)
  {
    assert [ch][..0] == "";
    assert Feed(stack, "") == Some(stack);
  }

  lemma NestedIntro(open: char, inner: string, rest: string)
    requires IsOpen(open) && Nested(inner) && Nested(rest)
    ensures Nested([open] + inner + [Closer(open)] + rest)
  {
    var z, i := [open] + inner + [Closer(open)] + rest, |inner| + 1;
    assert z[1..i] == inner && z[i + 1..] == rest && z[i] == Closer(z[0]);
  }

  lemma NestedElim(b: string) returns (open: char, inner: string, rest: string)
    requires Nested(b) && b != ""
    ensures IsOpen(open) && b == [open] + inner + [Closer(open)] + rest && Nested(inner) && Nested(rest)
  {
    var i :| 0 < i < |b| && IsOpen(b[0]) && b[i] == Closer(b[0]) && Nested(b[1..i]) && Nested(b[i + 1..]);
    open, inner, rest := b[0], b[1..i], b[i + 1..];
    hide Nested;
    SplitAt(b, i);
  }

  lemma SplitAt(b: string, i: nat)
    requires 0 < i < |b|
    ensures b == [b[0]] + b[1..i] + [b[i]] + b[i + 1..]
  {
  }

  /** Feeding a matched pair around something that leaves the stack alone. */
  lemma FeedPair(stack: string, open: char, inner: string, rest: string)
    requires IsOpen(open) && Feed(stack + [Closer(open)], inner) == Some(stack + [Closer(open)])
    ensures Feed(stack, [open] + inner + [Closer(open)] + rest) == Feed(stack, rest)
  {
    var up := stack + [Closer(open)];
    FeedConcat(stack, [open] + inner + [Closer(open)], rest);
    FeedConcat(stack, [open] + inner, [Closer(open)]);
    FeedConcat(stack, [open], inner);
    FeedOne(stack, open);
    FeedOne(up, Closer(open));
    assert up[..|up| - 1] == stack;
  }

  /** Nested brackets leave the stack as they found it. */
  lemma {:induction false} NestedNeutral(b: string, stack: string)
    requires Nested(b)
    ensures Feed(stack, b) == Some(stack)
    decreases |b|
  {
    if b != "" {
      var open, inner, rest := NestedElim(b);
      hide Nested;
      NestedNeutral(inner, stack + [Closer(open)]);
      NestedNeutral(rest, stack);
      FeedPair(stack, open, inner, rest);
    }
  }

  lemma {:induction false} NestedAppend(x: string, y: string)
    requires Nested(x) && Nested(y)
    ensures Nested(x + y)
    decreases |x|
  {
    if x == "" {
      assert x + y == y;
    } else {
      var open, inner, rest := NestedElim(x);
      NestedAppendAt(open, inner, rest, y);
    }
  }

  lemma {:induction false} NestedAppendAt(open: char, inner: string, rest: string, y: string)
    requires IsOpen(open) && Nested(inner) && Nested(rest) && Nested(y)
    ensures Nested([open] + inner + [Closer(open)] + rest + y)
    decreases |rest| + 1
  {
    hide Nested;
    NestedAppend(rest, y);
    NestedIntro(open, inner, rest + y);
    assert [open] + inner + [Closer(open)] + (rest + y) == [open] + inner + [Closer(open)] + rest + y;
  }

  lemma NestedWrap(open: char, inner: string)
    requires IsOpen(open) && Nested(inner)
    ensures Nested([open] + inner + [Closer(open)])
  {
    assert Nested("");
    NestedIntro(open, inner, "");
    assert [open] + inner + [Closer(open)] + "" == [open] + inner + [Closer(open)];
  }

  /** `b` is nested pieces separated by the open brackets whose closers are on the stack. */
  ghost predicate Shape(b: string, stack: string)
    decreases |stack|
  {
    if stack == "" then Nested(b)
    else exists i :: 0 <= i < |b| && IsOpen(b[i]) && Closer(b[i]) == stack[|stack| - 1]
                     && Shape(b[..i], stack[..|stack| - 1]) && Nested(b[i + 1..])
  }

  /** One more open bracket, with its place in the text. */
  lemma ShapeAt(z: string, i: nat, stack: string, close: char)
    requires i < |z| && IsOpen(z[i]) && Closer(z[i]) == close && Shape(z[..i], stack) && Nested(z[i + 1..])
    ensures Shape(z, stack + [close])
  {
    hide Nested;
    var longer := stack + [close];
    assert longer[..|longer| - 1] == stack;
  }

  lemma ShapeIntro(b: string, open: char, n: string, stack: string)
    requires Shape(b, stack) && IsOpen(open) && Nested(n)
    ensures Shape(b + [open] + n, stack + [Closer(open)])
  {
    hide Nested, Shape;
    var z := b + [open] + n;
    assert z[|b|] == open && z[..|b|] == b && z[|b| + 1..] == n;
    ShapeAt(z, |b|, stack, Closer(open));
  }

  lemma ShapeElim(b: string, stack: string) returns (front: string, open: char, n: string)
    requires Shape(b, stack) && stack != ""
    ensures b == front + [open] + n && IsOpen(open) && Closer(open) == stack[|stack| - 1]
    ensures Shape(front, stack[..|stack| - 1]) && Nested(n)
  {
    hide Nested;
    var i :| 0 <= i < |b| && IsOpen(b[i]) && Closer(b[i]) == stack[|stack| - 1]
             && Shape(b[..i], stack[..|stack| - 1]) && Nested(b[i + 1..]);
    front, open, n := b[..i], b[i], b[i + 1..];
  }

  lemma Regroup(a: string, b: string, c: string, d: string)
    ensures a + b + (c + d) == a + b + c + d
    ensures a + (b + c + d) == a + b + c + d
  {
  }

  lemma SplitLast(s: string)
    requires s != ""
    ensures s[..|s| - 1] + [s[|s| - 1]] == s
  {
  }

  lemma ShapeAppend(b: string, stack: string, y: string)
    requires Shape(b, stack) && Nested(y)
    ensures Shape(b + y, stack)
  {
    if stack == "" {
      NestedAppend(b, y);
    } else {
      var front, open, n := ShapeElim(b, stack);
      ShapeAppendAt(front, open, n, stack[..|stack| - 1], y);
      SplitLast(stack);
    }
  }

  lemma ShapeAppendAt(front: string, open: char, n: string, stack: string, y: string)
    requires Shape(front, stack) && IsOpen(open) && Nested(n) && Nested(y)
    ensures Shape(front + [open] + n + y, stack + [Closer(open)])
  {
    NestedAppend(n, y);
    ShapeIntro(front, open, n + y, stack);
    Regroup(front, [open], n, y);
  }

  /** The matching closer turns the last open bracket and what follows it into one more nested piece. */
  lemma ShapeClose(front: string, open: char, n: string, stack: string)
    requires Shape(front, stack) && IsOpen(open) && Nested(n)
    ensures Shape(front + [open] + n + [Closer(open)], stack)
  {
    NestedWrap(open, n);
    ShapeAppend(front, stack, [open] + n + [Closer(open)]);
    Regroup(front, [open], n, [Closer(open)]);
  }

  lemma {:induction false} FeedShape(b: string)
    requires Feed("", b).Some?
    ensures Shape(b, Feed("", b).value)
  {
    assert Nested("");
    if b != "" {
      var front, ch := b[..|b| - 1], b[|b| - 1];
      var st := Feed("", front).value;
      FeedShape(front);
      SplitLast(b);
      hide Nested, Shape;
      if IsOpen(ch) {
        ShapeIntro(front, ch, "", st);
        assert front + [ch] + "" == b;
      } else {
        var before, open, n := ShapeElim(front, st);
        ShapeClose(before, open, n, st[..|st| - 1]);
      }
    }
  }

  /** The stack machine accepts exactly the properly nested bracket strings. */
  lemma NestedIffFed(b: string)
    ensures Nested(b) <==> Feed("", b) == Some("")
  {
    if Nested(b) { NestedNeutral(b, ""); }
    if Feed("", b) == Some("") { FeedShape(b); }
  }

  // ----- balancedJSONEnd -----

  /** The first `n` characters are a complete bracketed text: outside any string, with brackets, properly nested. */
  ghost predicate Complete(s: string, n: nat)
    requires n <= |s|
  {
    PlaceAfter(s[..n]) == Outside && Brackets(s[..n]) != "" && Nested(Brackets(s[..n]))
  }

  lemma {:induction false} BracketsOnly(s: string)
    ensures forall i | 0 <= i < |Brackets(s)| :: IsBracket(Brackets(s)[i])
  {
    if s != "" { BracketsOnly(s[..|s| - 1]); }
  }

  lemma NextPrefix(s: string, i: nat)
    requires i < |s|
    ensures s[..i + 1][..i] == s[..i] && s[..i + 1] == s[..i] + [s[i]]
    ensures PlaceAfter(s[..i + 1]) == Step(PlaceAfter(s[..i]), s[i])
    ensures Brackets(s[..i + 1]) ==
              Brackets(s[..i]) + (if PlaceAfter(s[..i]) == Outside && IsBracket(s[i]) then [s[i]] else "")
  {
    assert s[..i + 1][..i] == s[..i];
  }

  // ----- where strings end -----

  /** How many backslashes a text ends with. */
  ghost function Slashes(s: string): nat {
    if s != "" && s[|s| - 1] == '\\' then Slashes(s[..|s| - 1]) + 1 else 0
  }

  /** Inside a string, the next character is escaped exactly when an odd number of backslashes stands before it. */
  lemma {:induction false} EscapedIff(s: string)
    requires PlaceAfter(s) != Outside
    ensures PlaceAfter(s) == Escaped <==> Slashes(s) % 2 == 1
  {
    var front := s[..|s| - 1];
    if PlaceAfter(front) != Outside { EscapedIff(front); }
  }

  /** A quote inside a string ends it exactly when an even number of backslashes stands before it, and one outside
      starts one; nothing else does either. */
  lemma QuoteEndsIff(s: string, i: nat)
    requires i < |s|
    ensures PlaceAfter(s[..i]) != Outside ==>
              (PlaceAfter(s[..i + 1]) == Outside <==> s[i] == '"' && Slashes(s[..i]) % 2 == 0)
    ensures PlaceAfter(s[..i]) == Outside ==> (PlaceAfter(s[..i + 1]) != Outside <==> s[i] == '"')
  {
    NextPrefix(s, i);
    if PlaceAfter(s[..i]) != Outside { EscapedIff(s[..i]); }
    hide PlaceAfter;
  }

  /** What may stand between the quotes of a string literal: every quote escaped, and no escape left open. */
  ghost predicate IsLiteral(c: string) {
    (forall i | 0 <= i < |c| && c[i] == '"' :: Slashes(c[..i]) % 2 == 1) && Slashes(c) % 2 == 0
  }

  lemma {:induction false} SlashesBehindQuote(a: string, c: string)
    ensures Slashes(a + "\"" + c) == Slashes(c)
  {
    var s := a + "\"" + c;
    if c == "" {
      assert s == a + "\"";
    } else {
      assert s[..|s| - 1] == a + "\"" + c[..|c| - 1];
      SlashesBehindQuote(a, c[..|c| - 1]);
    }
  }

  /** From its opening quote on, the inside of a literal has no bracket that counts and no end. */
  lemma {:induction false} InsideLiteral(a: string, c: string)
    requires PlaceAfter(a) == Outside && forall i | 0 <= i < |c| && c[i] == '"' :: Slashes(c[..i]) % 2 == 1
    ensures PlaceAfter(a + "\"" + c) != Outside && Brackets(a + "\"" + c) == Brackets(a)
  {
    hide PlaceAfter, Brackets, Slashes;
    if c == "" {
      QuoteStarts(a);
      assert a + "\"" + c == a + "\"";
    } else {
      var d := c[..|c| - 1];
      forall i | 0 <= i < |d| && d[i] == '"' ensures Slashes(d[..i]) % 2 == 1 { assert d[..i] == c[..i]; }
      InsideLiteral(a, d);
      SlashesBehindQuote(a, d);
      OneMoreInside(a + "\"" + d, c[|c| - 1]);
      assert a + "\"" + c == a + "\"" + d + [c[|c| - 1]];
    }
  }

  lemma QuoteStarts(a: string)
    requires PlaceAfter(a) == Outside
    ensures PlaceAfter(a + "\"") != Outside && Brackets(a + "\"") == Brackets(a)
  {
    hide PlaceAfter, Brackets;
    var s := a + "\"";
    assert s[..|a|] == a && s[..|a| + 1] == s;
    NextPrefix(s, |a|);
  }

  lemma OneMoreInside(front: string, ch: char)
    requires PlaceAfter(front) != Outside && (ch == '"' ==> Slashes(front) % 2 == 1)
    ensures PlaceAfter(front + [ch]) != Outside && Brackets(front + [ch]) == Brackets(front)
  {
    hide PlaceAfter, Brackets, Slashes;
    var s := front + [ch];
    assert s[..|front|] == front && s[..|front| + 1] == s;
    NextPrefix(s, |front|);
    QuoteEndsIff(s, |front|);
  }

  lemma LiteralIsSkipped(a: string, c: string)
    requires PlaceAfter(a) == Outside && IsLiteral(c)
    ensures PlaceAfter(a + "\"" + c + "\"") == Outside && Brackets(a + "\"" + c + "\"") == Brackets(a)
  {
    var s := a + "\"" + c + "\"";
    assert s[..|s| - 1] == a + "\"" + c && s[..|s|] == s;
    InsideLiteral(a, c);
    SlashesBehindQuote(a, c);
    NextPrefix(s, |s| - 1);
    QuoteEndsIff(s, |s| - 1);
    hide PlaceAfter, Brackets, IsLiteral;
  }

  /** Outside strings the brackets are the four characters, and the pairs are these two. */
  lemma BracketsAre(a: string, ch: char, open: char, close: char)
    ensures PlaceAfter(a) == Outside && ch != '"' ==>
              PlaceAfter(a + [ch]) == Outside
              && Brackets(a + [ch]) == if ch in "{[}]" then Brackets(a) + [ch] else Brackets(a)
    ensures Nested([open, close]) <==> (open == '{' && close == '}') || (open == '[' && close == ']')
  {
    var s := a + [ch];
    assert s[..|a|] == a && s[..|s|] == s;
    NextPrefix(s, |a|);
    var b := [open, close];
    assert b[1..1] == "" && b[2..] == "";
    hide PlaceAfter, Brackets;
    assert Nested("");
    assert Nested(b) ==> b[1] == Closer(b[0]);
  }

  /** Longer prefixes have more brackets. */
  lemma {:induction false} BracketsGrow(s: string, i: nat, j: nat)
    requires i <= j <= |s|
    ensures Brackets(s[..i]) <= Brackets(s[..j])
  {
    if i < j {
      BracketsGrow(s, i, j - 1);
      NextPrefix(s, j - 1);
    }
  }

  /** Once a bracket does not fit, no longer prefix is complete. */
  lemma StuckStays(s: string, i: nat)
    requires i <= |s| && Feed("", Brackets(s[..i])).None?
    ensures forall n | i <= n <= |s| :: !Complete(s, n)
  {
    hide Nested;
    forall n | i <= n <= |s| ensures !Complete(s, n) {
      BracketsGrow(s, i, n);
      var a, b := Brackets(s[..i]), Brackets(s[..n]);
      assert b == a + b[|a|..];
      FeedConcat("", a, b[|a|..]);
      NestedIffFed(b);
    }
  }

  /** The stack scanner at position `i`: it awaits `stack`, and has not met a complete prefix. */
  ghost predicate Scanned(s: string, i: nat, stack: string)
    requires i <= |s|
  {
    && Feed("", Brackets(s[..i])) == Some(stack)
    && (stack == "" <==> Brackets(s[..i]) == "")
    && (forall n | 0 <= n <= i :: !Complete(s, n))
  }

  lemma SkipStep(s: string, i: nat, stack: string)
    requires i < |s| && Scanned(s, i, stack)
    requires !(PlaceAfter(s[..i]) == Outside && IsBracket(s[i]))
    ensures Scanned(s, i + 1, stack)
  {
    hide Nested;
    NextPrefix(s, i);
    NestedIffFed(Brackets(s[..i]));
  }

  lemma BracketStep(s: string, i: nat, stack: string)
    requires i < |s| && Scanned(s, i, stack)
    requires PlaceAfter(s[..i]) == Outside && IsBracket(s[i])
    ensures Push(stack, s[i]).None? ==> forall n | 0 <= n <= |s| :: !Complete(s, n)
    ensures Push(stack, s[i]) == Some("") ==> Complete(s, i + 1)
    ensures Push(stack, s[i]).Some? && Push(stack, s[i]).value != "" ==> Scanned(s, i + 1, Push(stack, s[i]).value)
  {
    hide Nested;
    NextPrefix(s, i);
    var was, now := Brackets(s[..i]), Brackets(s[..i + 1]);
    FeedConcat("", was, [s[i]]);
    FeedOne(stack, s[i]);
    NestedIffFed(now);
    if Push(stack, s[i]).None? {
      StuckStays(s, i + 1);
    }
  }

  /** `balancedJSONEnd` returns the length of the shortest complete prefix, and finds one whenever there is one. */
  method BalancedJsonEnd(s: string) returns (end: nat, ok: bool)
    ensures ok <==> exists n :: 0 <= n <= |s| && Complete(s, n)
    ensures ok ==> end <= |s| && Complete(s, end) && forall n | 0 <= n < end :: !Complete(s, n)
    ensures !ok ==> end == 0
  {
    var stack := "";
    var inString, escaped := false, false;
    for i := 0 to |s|
      invariant inString <==> PlaceAfter(s[..i]) != Outside
      invariant escaped <==> PlaceAfter(s[..i]) == Escaped
      invariant Scanned(s, i, stack)
    {
      NextPrefix(s, i);
      if PlaceAfter(s[..i]) == Outside && IsBracket(s[i]) { BracketStep(s, i, stack); } else { SkipStep(s, i, stack); }
      hide Complete, Brackets, Feed, PlaceAfter;
      var ch := s[i];
      if inString {
        if escaped {
          escaped := false;
        } else if ch == '\\' {
          escaped := true;
        } else if ch == '"' {
          inString := false;
        }
        continue;
      }
      if ch == '"' {
        inString := true;
      } else if ch == '{' {
        stack := stack + ['}'];
      } else if ch == '[' {
        stack := stack + [']'];
      } else if ch == '}' || ch == ']' {
        if |stack| == 0 || stack[|stack| - 1] != ch {
          return 0, false;
        }
        stack := stack[..|stack| - 1];
        if |stack| == 0 {
          return i + 1, true;
        }
      }
    }
    assert s[..|s|] == s;
    end, ok := 0, false;
  }

  /** An object around one string ends behind it and not before, whatever quotes and brackets the string contains. */
  lemma ObjectAroundString(c: string, rest: string)
    requires IsLiteral(c)
    ensures var t := "{\"" + c + "\"}";
            && Complete(t + rest, |t|) && forall n | 0 <= n < |t| :: !Complete(t + rest, n)
  {
    hide Nested, IsLiteral, Complete;
    ObjectIsComplete(c, rest);
    forall n | 0 <= n < |c| + 4 ensures !Complete("{\"" + c + "\"}" + rest, n) {
      ObjectPrefix(c, rest, n);
    }
  }

  lemma ObjectIsComplete(c: string, rest: string)
    requires IsLiteral(c)
    ensures Complete("{\"" + c + "\"}" + rest, |c| + 4)
  {
    hide Nested, IsLiteral, PlaceAfter, Brackets;
    var t, front := "{\"" + c + "\"}", "{" + "\"" + c + "\"";
    OpensObject();
    LiteralIsSkipped("{", c);
    BracketsAre(front, '}', '{', '}');
    assert front + ['}'] == t && (t + rest)[..|c| + 4] == t;
    assert "{" + ['}'] == ['{', '}'];
  }

  lemma OpensObject()
    ensures PlaceAfter("{") == Outside && Brackets("{") == "{"
  {
    BracketsAre("", '{', '{', '}');
    assert "" + ['{'] == "{";
  }

  lemma NotNestedAlone()
    ensures !Nested("{")
  {
  }

  lemma LiteralPrefix(c: string, n: nat)
    requires IsLiteral(c) && n <= |c|
    ensures forall i | 0 <= i < n && c[..n][i] == '"' :: Slashes(c[..n][..i]) % 2 == 1
  {
    forall i | 0 <= i < n && c[..n][i] == '"' ensures Slashes(c[..n][..i]) % 2 == 1 { assert c[..n][..i] == c[..i]; }
  }

  lemma ObjectPrefix(c: string, rest: string, n: nat)
    requires IsLiteral(c) && n < |c| + 4
    ensures n <= |"{\"" + c + "\"}" + rest|
    ensures !Complete("{\"" + c + "\"}" + rest, n)
  {
    hide IsLiteral, Nested;
    var u := "{\"" + c + "\"}" + rest;
    NotNestedAlone();
    OpensObject();
    if n <= 1 {
      assert u[..n] == (if n == 0 then "" else "{");
    } else if n < |c| + 3 {
      var d := c[..n - 2];
      assert u[..n] == "{" + "\"" + d;
      LiteralPrefix(c, n - 2);
      InsideLiteral("{", d);
    } else {
      assert u[..n] == "{" + "\"" + c + "\"";
      LiteralIsSkipped("{", c);
    }
  }

  // ----- ExtractJSONBlock -----

  /** What one character outside strings does to the counter. */
  function Delta(open: char, close: char, ch: char): int {
    if ch == open then 1 else if ch == close then -1 else 0
  }

  /** Openers less closers outside strings; quotes are not counted. */
  function Tally(open: char, close: char, t: string): int {
    if t == "" then 0
    else
      var front, ch := t[..|t| - 1], t[|t| - 1];
      Tally(open, close, front) + (if PlaceAfter(front) == Outside && ch != '"' then Delta(open, close, ch) else 0)
  }

  /** The counter scanner stops after `n` characters: a closer outside strings brings the count to zero. */
  predicate Stops(open: char, close: char, t: string, n: nat)
    requires n <= |t|
  {
    n > 0 && PlaceAfter(t[..n - 1]) == Outside && t[n - 1] != '"' && t[n - 1] != open && t[n - 1] == close
    && Tally(open, close, t[..n]) == 0
  }

  lemma NextTally(open: char, close: char, t: string, i: nat)
    requires i < |t|
    ensures Tally(open, close, t[..i + 1]) ==
              Tally(open, close, t[..i])
              + (if PlaceAfter(t[..i]) == Outside && t[i] != '"' then Delta(open, close, t[i]) else 0)
  {
    assert t[..i + 1][..i] == t[..i];
  }

  lemma NothingYet(open: char, close: char, t: string)
    ensures t[..0] == "" && PlaceAfter("") == Outside && Tally(open, close, "") == 0 && !Stops(open, close, t, 0)
  {
  }

  lemma StopsNext(open: char, close: char, t: string, k: nat)
    requires k < |t|
    ensures Stops(open, close, t, k + 1) <==>
            PlaceAfter(t[..k]) == Outside && t[k] != '"' && t[k] != open && t[k] == close
            && Tally(open, close, t[..k + 1]) == 0
  {
    hide PlaceAfter, Tally;
  }

  /** `scanBalanced` returns the text up to the first stop, or nothing. */
  method ScanBalanced(s: string, start: nat, open: char, close: char) returns (r: string)
    requires start <= |s|
    ensures r == "" <==> forall n | 0 <= n <= |s| - start :: !Stops(open, close, s[start..], n)
    ensures r != "" ==> r <= s[start..] && Stops(open, close, s[start..], |r|)
                        && forall n | 0 <= n < |r| :: !Stops(open, close, s[start..], n)
  {
    hide Tally, PlaceAfter, Brackets, Stops;
    ghost var t := s[start..];
    NothingYet(open, close, t);
    var depth, inStr, esc := 0, false, false;
    for i := start to |s|
      invariant inStr <==> PlaceAfter(t[..i - start]) != Outside
      invariant esc <==> PlaceAfter(t[..i - start]) == Escaped
      invariant depth == Tally(open, close, t[..i - start])
      invariant forall n | 0 <= n <= i - start :: !Stops(open, close, t, n)
    {
      ghost var k := i - start;
      NextPrefix(t, k);
      NextTally(open, close, t, k);
      StopsNext(open, close, t, k);
      var ch := s[i];
      assert ch == t[k];
      if esc {
        esc := false;
        continue;
      }
      if ch == '\\' && inStr {
        esc := true;
        continue;
      }
      if ch == '"' {
        inStr := !inStr;
        continue;
      }
      if inStr {
        continue;
      }
      if ch == open {
        depth := depth + 1;
      } else if ch == close {
        depth := depth - 1;
        if depth == 0 {
          r := s[start..i + 1];
          assert r == t[..k + 1];
          assert Stops(open, close, t, k + 1);
          return;
        }
      }
    }
    r := "";
  }

  function CountIn(stack: string, ch: char): nat {
    if stack == "" then 0 else CountIn(stack[..|stack| - 1], ch) + (if stack[|stack| - 1] == ch then 1 else 0)
  }

  /** While the stack scanner is still waiting for the first bracket's partner, the counter is the number of such
      partners on its stack, and there is at least one. */
  lemma {:induction false} CounterFollowsStack(t: string, n: nat, end: nat) returns (stack: string)
    requires 0 < n < end <= |t| && IsOpen(t[0]) && Complete(t, end)
    requires forall m | 0 <= m < end :: !Complete(t, m)
    ensures Feed("", Brackets(t[..n])) == Some(stack) && stack != "" && stack[0] == Closer(t[0])
    ensures Tally(t[0], Closer(t[0]), t[..n]) == CountIn(stack, Closer(t[0])) > 0
  {
    hide Nested;
    var open, close := t[0], Closer(t[0]);
    if n == 1 {
      stack := [close];
      CounterStarts(t);
    } else {
      var before := CounterFollowsStack(t, n - 1, end);
      stack := CounterStep(t, n - 1, end, before);
    }
  }

  lemma CounterStarts(t: string)
    requires t != "" && IsOpen(t[0])
    ensures Feed("", Brackets(t[..1])) == Some([Closer(t[0])])
    ensures Tally(t[0], Closer(t[0]), t[..1]) == CountIn([Closer(t[0])], Closer(t[0])) == 1
  {
    assert t[..0] == "";
    NextPrefix(t, 0);
    NextTally(t[0], Closer(t[0]), t, 0);
    assert Brackets(t[..1]) == [t[0]];
    FeedOne("", t[0]);
    assert "" + [Closer(t[0])] == [Closer(t[0])];
    assert [Closer(t[0])][..0] == "";
  }

  /** A bracket that fits changes the counter by what it does to the stack. */
  lemma PushCounts(before: string, ch: char, open: char)
    requires IsOpen(open) && IsBracket(ch) && Push(before, ch).Some?
    ensures CountIn(Push(before, ch).value, Closer(open)) ==
            CountIn(before, Closer(open)) + Delta(open, Closer(open), ch)
    ensures before != "" && Push(before, ch).value != "" ==> Push(before, ch).value[0] == before[0]
  {
    if IsOpen(ch) {
      var st := Push(before, ch).value;
      assert st[..|st| - 1] == before;
    }
  }

  lemma {:induction false} BottomCounts(stack: string, ch: char)
    requires stack != "" && stack[0] == ch
    ensures CountIn(stack, ch) > 0
  {
    if |stack| > 1 { BottomCounts(stack[..|stack| - 1], ch); }
  }

  lemma CounterStep(t: string, i: nat, end: nat, before: string) returns (stack: string)
    requires 0 < i && i + 1 < end <= |t| && IsOpen(t[0]) && Complete(t, end) && !Complete(t, i + 1)
    requires Feed("", Brackets(t[..i])) == Some(before) && before != "" && before[0] == Closer(t[0])
    requires Tally(t[0], Closer(t[0]), t[..i]) == CountIn(before, Closer(t[0]))
    ensures Feed("", Brackets(t[..i + 1])) == Some(stack) && stack != "" && stack[0] == Closer(t[0])
    ensures Tally(t[0], Closer(t[0]), t[..i + 1]) == CountIn(stack, Closer(t[0])) > 0
  {
    hide Nested;
    var open, close := t[0], Closer(t[0]);
    NextPrefix(t, i);
    NextTally(open, close, t, i);
    if PlaceAfter(t[..i]) == Outside && IsBracket(t[i]) {
      FedToTheEnd(t, i + 1, end);
      FeedConcat("", Brackets(t[..i]), [t[i]]);
      FeedOne(before, t[i]);
      NestedIffFed(Brackets(t[..i + 1]));
      hide Feed, Brackets, Tally, CountIn;
      stack := Push(before, t[i]).value;
      PushCounts(before, t[i], open);
    } else {
      stack := before;
    }
    BottomCounts(stack, close);
  }

  /** No bracket before the end of a complete prefix fails to fit. */
  lemma FedToTheEnd(t: string, i: nat, end: nat)
    requires i <= end <= |t| && Complete(t, end)
    ensures Feed("", Brackets(t[..i])).Some?
  {
    if Feed("", Brackets(t[..i])).None? {
      StuckStays(t, i);
      assert false;
    }
  }

  /** Where the stack scanner finds the end of a value, the counter scanner stops too, and not before. */
  lemma ScannersAgree(t: string, end: nat)
    requires end <= |t| && Complete(t, end) && forall m | 0 <= m < end :: !Complete(t, m)
    requires IsOpen(t[0])
    ensures Stops(t[0], Closer(t[0]), t, end) && forall n | 0 <= n < end :: !Stops(t[0], Closer(t[0]), t, n)
  {
    hide Nested;
    var open, close := t[0], Closer(t[0]);
    forall n | 0 <= n < end ensures !Stops(open, close, t, n) {
      if n > 0 { var st := CounterFollowsStack(t, n, end); }
    }
    assert end > 1 by {
      assert t[..0] == "" && t[..1] == [open];
      if end == 1 {
        NextPrefix(t, 0);
        FeedOne("", open);
        NestedIffFed([open]);
      }
    }
    var stack := CounterFollowsStack(t, end - 1, end);
    LastCloses(t, end, stack);
  }

  lemma LastCloses(t: string, end: nat, stack: string)
    requires 1 < end <= |t| && IsOpen(t[0]) && Complete(t, end)
    requires Feed("", Brackets(t[..end - 1])) == Some(stack) && stack != "" && stack[0] == Closer(t[0])
    requires Tally(t[0], Closer(t[0]), t[..end - 1]) == CountIn(stack, Closer(t[0])) > 0
    ensures Stops(t[0], Closer(t[0]), t, end)
  {
    hide Nested;
    NextPrefix(t, end - 1);
    NextTally(t[0], Closer(t[0]), t, end - 1);
    NestedIffFed(Brackets(t[..end]));
    assert PlaceAfter(t[..end - 1]) == Outside && IsBracket(t[end - 1]);
    FeedConcat("", Brackets(t[..end - 1]), [t[end - 1]]);
    FeedOne(stack, t[end - 1]);
    assert |stack| == 1;
    assert stack[..0] == "";
  }

  /** The counter stops first after `n` characters. */
  ghost predicate FirstStop(open: char, close: char, t: string, n: nat) {
    n <= |t| && Stops(open, close, t, n) && forall k | 0 <= k < n :: !Stops(open, close, t, k)
  }

  /** The stack scanner finds an end after `n` characters. */
  ghost predicate FirstEnd(t: string, n: nat) {
    n <= |t| && Complete(t, n) && forall k | 0 <= k < n :: !Complete(t, k)
  }

  lemma {:induction false} LeastEnd(t: string, e: nat) returns (n: nat)
    requires e <= |t| && Complete(t, e)
    ensures n <= e && FirstEnd(t, n)
  {
    hide Complete;
    n := e;
    if k :| 0 <= k < e && Complete(t, k) { n := LeastEnd(t, k); }
  }

  /** At its stop the counter is outside strings and past an opening bracket. */
  lemma StopIsOutside(t: string, n: nat)
    requires t != "" && IsOpen(t[0]) && n <= |t| && Stops(t[0], Closer(t[0]), t, n)
    ensures PlaceAfter(t[..n]) == Outside && Brackets(t[..n]) != ""
  {
    NextPrefix(t, n - 1);
    NextPrefix(t, 0);
    assert t[..0] == "";
    BracketsGrow(t, 1, n);
  }

  /** Where the counter stops, the text is a complete value exactly when the brackets up to there are properly nested,
      and then and only then does the text have a complete prefix at all; the stack scanner ends there too. */
  lemma CounterAgreesIff(t: string, n: nat)
    requires t != "" && IsOpen(t[0]) && FirstStop(t[0], Closer(t[0]), t, n)
    ensures (exists e: nat :: e <= |t| && Complete(t, e)) <==> Nested(Brackets(t[..n]))
    ensures Nested(Brackets(t[..n])) ==> FirstEnd(t, n)
  {
    StopIsOutside(t, n);
    if e: nat :| e <= |t| && Complete(t, e) {
      hide Nested, Stops, Brackets, PlaceAfter;
      var first := LeastEnd(t, e);
      ScannersAgree(t, first);
      assert first == n;
    } else {
      assert !Complete(t, n);
    }
  }

  /** A counter that never stops has no complete prefix before it. */
  lemma NoStopNoEnd(t: string, e: nat)
    requires t != "" && IsOpen(t[0]) && e <= |t| && Complete(t, e)
    ensures exists n: nat :: n <= |t| && Stops(t[0], Closer(t[0]), t, n)
  {
    hide Complete, Stops;
    var first := LeastEnd(t, e);
    ScannersAgree(t, first);
  }

  /** `ExtractJSONBlock`: nothing for an index outside the text, and otherwise the text up to the counter's first
      stop. Where a bracket starts it, that text is a complete value, the one `balancedJSONEnd` would delimit, exactly
      when its brackets are properly nested; and without a stop no complete value starts there. */
  method ExtractJsonBlock(s: string, idx: int) returns (r: string)
    ensures !(0 <= idx < |s|) ==> r == ""
    ensures 0 <= idx < |s| ==>
              var open, close, t := s[idx], if s[idx] == '[' then ']' else '}', s[idx..];
              && (r == "" <==> forall n | 0 <= n <= |t| :: !Stops(open, close, t, n))
              && (r != "" ==> r <= t && FirstStop(open, close, t, |r|))
    ensures 0 <= idx < |s| && IsOpen(s[idx]) ==>
              var t := s[idx..];
              && (r == "" ==> forall e | 0 <= e <= |t| :: !Complete(t, e))
              && (r != "" ==> ((exists e: nat :: e <= |t| && Complete(t, e)) <==> Nested(Brackets(r))))
              && (r != "" && Nested(Brackets(r)) ==> FirstEnd(t, |r|))
              && (forall end: nat | FirstEnd(t, end) :: r == t[..end])
  {
    hide Stops, Complete, Nested, Brackets;
    if idx < 0 || idx >= |s| {
      return "";
    }
    var open := s[idx];
    var closeCh := '}';
    if open == '[' {
      closeCh := ']';
    }
    r := ScanBalanced(s, idx, open, closeCh);
    ghost var t := s[idx..];
    if IsOpen(open) {
      if r == "" {
        forall e | 0 <= e <= |t| ensures !Complete(t, e) {
          if Complete(t, e) {
            NoStopNoEnd(t, e);
            assert false;
          }
        }
      } else {
        assert r == t[..|r|];
        CounterAgreesIff(t, |r|);
      }
    }
  }

  /** The counter ignores brackets of the other kind: it accepts a text the stack scanner refuses. */
  lemma CounterIsLaxer()
    ensures Stops('{', '}', "{]}", 3) && forall n | 0 <= n <= 3 :: !Complete("{]}", n)
  {
    var t := "{]}";
    TalliesOfThree();
    NothingFitsInThree();
    StuckStays(t, 2);
    hide Feed, Brackets, Tally, PlaceAfter, Nested, Complete;
    forall n | 0 <= n <= 3 ensures !Complete(t, n) {
      if n < 2 { OneIsIncomplete(n); }
    }
  }

  lemma PlacesInThree()
    ensures "{]}"[..0] == "" && "{]}"[..1] == "{" && "{]}"[..2] == "{]" && "{]}"[..3] == "{]}"
    ensures forall n | 0 <= n <= 2 :: PlaceAfter("{]}"[..n]) == Outside
  {
    var t := "{]}";
    assert t[..0] == "";
    NextPrefix(t, 0);
    NextPrefix(t, 1);
  }

  lemma TalliesOfThree()
    ensures Stops('{', '}', "{]}", 3)
  {
    var t := "{]}";
    PlacesInThree();
    NextTally('{', '}', t, 0);
    NextTally('{', '}', t, 1);
    NextTally('{', '}', t, 2);
    hide PlaceAfter;
  }

  lemma NothingFitsInThree()
    ensures Brackets("{]}"[..1]) == "{" && Feed("", Brackets("{]}"[..2])).None?
  {
    var t := "{]}";
    PlacesInThree();
    NextPrefix(t, 0);
    NextPrefix(t, 1);
    assert Brackets(t[..0]) == "";
    assert Brackets(t[..1]) == "{" by { assert "" + ['{'] == "{"; }
    assert Brackets(t[..2]) == "{" + [']'];
    FeedConcat("", "{", [']']);
    FeedOne("", '{');
    assert "" + ['}'] == "}";
    FeedOne("}", ']');
    assert ['{'] == "{";
  }

  lemma LoneOpenIsNotNested()
    ensures !Nested("{")
  {
    hide Nested;
    NestedIffFed("{");
    FeedOne("", '{');
    assert ['{'] == "{";
  }

  lemma OneIsIncomplete(n: nat)
    requires n < 2
    ensures !Complete("{]}", n)
  {
    PlacesInThree();
    NothingFitsInThree();
    LoneOpenIsNotNested();
    hide Nested, Feed, PlaceAfter;
  }
}

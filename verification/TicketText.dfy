/** The text of a ticket file: YAML between two `---` lines, then a Markdown body. */
module TicketText {
  import opened Strings

  const OPENING := "---\n"
  const CLOSING := "\n---\n"
  const UNFINISHED := "\n---"
  const NOTES_TITLE := "## Notes"

  datatype Parts = Parts(yaml: string, body: string)

  /** The YAML ends at the first closing delimiter line, or else, for a file cut off at its end, at the first line that
      starts like one; None is the corrupt-ticket error. */
  function Split(content: string): Option<Parts> {
    if !(OPENING <= content) then None
    else
      var rest := content[4..];
      var end := if Index(rest, CLOSING) >= 0 then Index(rest, CLOSING) else Index(rest, UNFINISHED);
      if end < 0 then None
      else
        var bodyStart := 4 + end + 5;
        Some(Parts(rest[..end], if bodyStart < |content| then content[bodyStart..] else ""))
  }

  /** `renderFrontmatterBody` after the YAML is marshalled. */
  function Render(yaml: string, body: string): string {
    OPENING + yaml + OPENING + body
  }

  /** A line other than the first is exactly `---`. */
  ghost predicate HasDelimiterLine(yaml: string) {
    exists k: nat :: OccursAt(yaml, CLOSING, k)
  }

  lemma SliceOfPrefix(a: string, b: string, sub: string, k: nat)
    requires k + |sub| <= |a|
    ensures OccursAt(a + b, sub, k) <==> OccursAt(a, sub, k)
  {
    assert (a + b)[k..k + |sub|] == a[k..k + |sub|];
  }

  /** Inside a closing delimiter only its last character ends a line. */
  lemma LineEndsDelimiter(t: string, k: nat, m: nat)
    requires OccursAt(t, CLOSING, k) && k < m < k + 5 && t[m] == '\n'
    ensures m == k + 4
  {
    assert t[k..k + 5][m - k] == t[m];
  }

  /** A closing delimiter cannot start inside the last line before another: it would need a dash where a line ends. */
  lemma NoStraddle(yaml: string, rest: string, k: nat)
    requires k < |yaml| && OccursAt(yaml + CLOSING + rest, CLOSING, k)
    ensures OccursAt(yaml + "\n", CLOSING, k)
  {
    var t := yaml + CLOSING + rest;
    if |yaml| < k + 5 { LineEndsDelimiter(t, k, |yaml|); }
    assert t == (yaml + "\n") + ("---\n" + rest);
    SliceOfPrefix(yaml + "\n", "---\n" + rest, CLOSING, k);
  }

  lemma FirstClosing(yaml: string, rest: string)
    ensures 0 <= Index(yaml + CLOSING + rest, CLOSING) <= |yaml|
    ensures Index(yaml + CLOSING + rest, CLOSING) == |yaml| <==> !HasDelimiterLine(yaml + "\n")
  {
    var t := yaml + CLOSING + rest;
    assert t[|yaml|..|yaml| + 5] == CLOSING;
    assert OccursAt(t, CLOSING, |yaml|);
    var i := Index(t, CLOSING);
    if i < |yaml| {
      NoStraddle(yaml, rest, i);
    } else {
      forall k: nat ensures !OccursAt(yaml + "\n", CLOSING, k) {
        if k + 5 <= |yaml| + 1 {
          assert t == (yaml + "\n") + ("---\n" + rest);
          SliceOfPrefix(yaml + "\n", "---\n" + rest, CLOSING, k);
        }
      }
    }
  }

  /** Splitting a rendered ticket gives back its YAML without the final newline and its body, exactly when no line of
      the YAML but the first is `---`. */
  lemma SplitOfRender(yaml: string, body: string)
    ensures Split(Render(yaml + "\n", body)) == Some(Parts(yaml, body)) <==> !HasDelimiterLine(yaml + "\n")
    ensures Closed(Render(yaml + "\n", body))
  {
    var content := Render(yaml + "\n", body);
    var rest := yaml + CLOSING + body;
    assert content == OPENING + rest;
    FirstClosing(yaml, body);
    if !HasDelimiterLine(yaml + "\n") {
      assert rest[..|yaml|] == yaml && content[9 + |yaml|..] == body;
    } else {
      assert |rest[..Index(rest, CLOSING)]| < |yaml|;
    }
  }

  /** Any YAML with such a line is cut short there. */
  lemma DelimiterCutsYaml()
    ensures Split(Render("a\n---\nb\n", "body")) == Some(Parts("a", "b\n---\nbody"))
  {
    var content := Render("a\n---\nb\n", "body");
    assert content == Render("a" + "\n", "b\n---\nbody");
    assert !HasDelimiterLine("a" + "\n");
    SplitOfRender("a", "b\n---\nbody");
  }

  /** A file cut off at its end: without a closing delimiter line, the YAML ends where a line starts with one. */
  lemma SplitCutOff(yaml: string)
    requires forall k: nat :: !OccursAt(yaml + "\n---", UNFINISHED, k) || k == |yaml|
    ensures Split("---\n" + yaml + "\n---") == Some(Parts(yaml, ""))
  {
    var content := "---\n" + yaml + "\n---";
    var rest := yaml + "\n---";
    assert content[4..] == rest && content[..4] == "---\n";
    assert rest[|yaml|..|yaml| + 4] == "\n---";
    assert OccursAt(rest, UNFINISHED, |yaml|);
    forall k | 0 <= k ensures !OccursAt(rest, CLOSING, k) {
      if OccursAt(rest, CLOSING, k) {
        assert rest[k..k + 5][..4] == rest[k..k + 4];
        assert OccursAt(rest, UNFINISHED, k);
      }
    }
    assert rest[..|yaml|] == yaml;
  }

  /** And a file is corrupt exactly when it does not start with a delimiter line, or no later line starts with one. */
  lemma CorruptIff(content: string)
    ensures Split(content).None? <==>
              !("---\n" <= content) || forall a, b :: content[4..] != a + "\n---" + b
  {
    if "---\n" <= content {
      FoundIff(content[4..], UNFINISHED);
      ClosingIsUnfinished(content[4..]);
    }
    hide Index, Contains;
  }

  lemma FoundIff(s: string, sub: string)
    ensures Index(s, sub) >= 0 <==> exists a, b :: s == a + sub + b
  {
    ContainsIff(s, sub);
    if i :| 0 <= i <= |s| && OccursAt(s, sub, i) { assert Contains(s, sub); }
    hide Index;
  }

  lemma ClosingIsUnfinished(s: string)
    ensures Index(s, CLOSING) >= 0 ==> Index(s, UNFINISHED) >= 0
  {
    var i := Index(s, CLOSING);
    if i >= 0 {
      assert s[i..i + 5][..4] == s[i..i + 4];
      assert OccursAt(s, UNFINISHED, i);
    }
  }

  // ----- runs of edits -----

  /** A ticket whose YAML is closed by a whole delimiter line. */
  predicate Closed(content: string) {
    OPENING <= content && Index(content[4..], CLOSING) >= 0
  }

  /** What marshalling yields: text that ends its last line and has no delimiter line. */
  ghost predicate Marshalled(yaml: string) {
    yaml != "" && yaml[|yaml| - 1] == '\n' && !HasDelimiterLine(yaml)
  }

  /** Rewriting the frontmatter, as every ticket operation but one does, or adding a note. */
  datatype Edit = Rewrite(yaml: string) | Note(stamp: string, text: string)

  function NoteText(stamp: string, text: string): string {
    "\n**" + stamp + "**\n\n" + text + "\n"
  }

  /** What `AddNote` puts at the end of a file. */
  function Addition(content: string, stamp: string, text: string): string {
    (if Contains(content, NOTES_TITLE) then "" else "\n## Notes\n") + NoteText(stamp, text)
  }

  /** A rewrite of a corrupt ticket is refused; `AddNote` does not parse the ticket. */
  function Apply(content: string, e: Edit): string {
    match e
    case Rewrite(yaml) =>
      (match Split(content)
       case None => content
       case Some(parts) => Render(yaml, parts.body))
    case Note(stamp, text) => content + Addition(content, stamp, text)
  }

  function ApplyAll(content: string, edits: seq<Edit>): string {
    if edits == [] then content else Apply(ApplyAll(content, edits[..|edits| - 1]), edits[|edits| - 1])
  }

  function EditYaml(was: string, e: Edit): string {
    match e
    case Rewrite(yaml) => if yaml == "" then "" else yaml[..|yaml| - 1]
    case Note(_, _) => was
  }

  function EditAddition(was: string, e: Edit): string {
    match e
    case Rewrite(_) => ""
    case Note(stamp, text) => Addition(was, stamp, text)
  }

  /** Everything the notes among the edits add. */
  function Additions(content: string, edits: seq<Edit>): string {
    if edits == [] then ""
    else
      var front := edits[..|edits| - 1];
      Additions(content, front) + EditAddition(ApplyAll(content, front), edits[|edits| - 1])
  }

  /** The YAML of the last rewrite, without its final newline. */
  function LastYaml(first: string, edits: seq<Edit>): string {
    if edits == [] then first else EditYaml(LastYaml(first, edits[..|edits| - 1]), edits[|edits| - 1])
  }

  /** What a note adds, to the letter: the heading when the file does not have it, the time and the text. */
  lemma NoteIs(content: string, stamp: string, text: string)
    ensures var note := "\n**" + stamp + "**\n\n" + text + "\n";
            Apply(content, Note(stamp, text)) ==
              if exists a, b :: content == a + "## Notes" + b then content + note else content + "\n## Notes\n" + note
  {
    ContainsIff(content, NOTES_TITLE);
    hide Contains;
    assert content + ("" + NoteText(stamp, text)) == content + NoteText(stamp, text);
  }

  lemma ClosedSplits(content: string)
    requires Closed(content)
    ensures Split(content).Some?
    ensures var p := Split(content).value; content == OPENING + p.yaml + CLOSING + p.body
    ensures !HasDelimiterLine(Split(content).value.yaml + "\n")
  {
    var rest, p := content[4..], Split(content).value;
    var end := Index(rest, CLOSING);
    assert rest[end..end + 5] == CLOSING;
    assert rest == p.yaml + CLOSING + p.body;
    FirstClosing(p.yaml, p.body);
  }

  lemma SplitClosed(yaml: string, body: string)
    requires !HasDelimiterLine(yaml + "\n")
    ensures Closed(OPENING + yaml + CLOSING + body)
    ensures Split(OPENING + yaml + CLOSING + body) == Some(Parts(yaml, body))
  {
    SplitOfRender(yaml, body);
    assert OPENING + yaml + CLOSING + body == Render(yaml + "\n", body);
  }

  /** Text added at the end of a closed ticket is added at the end of its body. */
  lemma AppendExtendsBody(content: string, more: string)
    requires Closed(content)
    ensures Closed(content + more)
    ensures Split(content + more) == Some(Split(content).value.(body := Split(content).value.body + more))
  {
    ClosedSplits(content);
    var p := Split(content).value;
    SplitClosed(p.yaml, p.body + more);
    assert content + more == OPENING + p.yaml + CLOSING + (p.body + more);
  }

  lemma RewriteKeepsBody(content: string, yaml: string)
    requires Closed(content) && Marshalled(yaml)
    ensures Closed(Apply(content, Rewrite(yaml)))
    ensures Split(Apply(content, Rewrite(yaml))) == Some(Parts(yaml[..|yaml| - 1], Split(content).value.body))
  {
    ClosedSplits(content);
    assert yaml == yaml[..|yaml| - 1] + "\n";
    SplitOfRender(yaml[..|yaml| - 1], Split(content).value.body);
  }

  lemma EditOnlyExtendsBody(content: string, e: Edit)
    requires Closed(content) && (e.Rewrite? ==> Marshalled(e.yaml))
    ensures Split(content).Some? && Closed(Apply(content, e))
    ensures var was := Split(content).value;
            Split(Apply(content, e)) == Some(Parts(EditYaml(was.yaml, e), was.body + EditAddition(content, e)))
  {
    ClosedSplits(content);
    match e
    case Rewrite(yaml) =>
      RewriteKeepsBody(content, yaml);
      assert Split(content).value.body + "" == Split(content).value.body;
    case Note(stamp, text) =>
      AppendExtendsBody(content, Addition(content, stamp, text));
  }

  /** Over any run of rewrites and notes, the YAML is that of the last rewrite, and the body is only ever extended at
      its end, by the notes. */
  lemma {:induction false} RunOnlyExtendsBody(content: string, edits: seq<Edit>)
    requires Closed(content) && forall e | e in edits && e.Rewrite? :: Marshalled(e.yaml)
    ensures Closed(ApplyAll(content, edits)) && Split(content).Some?
    ensures Split(ApplyAll(content, edits)) ==
              Some(Parts(LastYaml(Split(content).value.yaml, edits),
                         Split(content).value.body + Additions(content, edits)))
  {
    ClosedSplits(content);
    hide Split, Closed, Addition, Marshalled;
    if edits == [] {
      assert Split(content).value.body + "" == Split(content).value.body;
    } else {
      var front, last := edits[..|edits| - 1], edits[|edits| - 1];
      RunOnlyExtendsBody(content, front);
      EditOnlyExtendsBody(ApplyAll(content, front), last);
      Reassociate(Split(content).value.body, Additions(content, front), EditAddition(ApplyAll(content, front), last));
    }
  }

  lemma Reassociate(a: string, b: string, c: string)
    ensures (a + b) + c == a + (b + c)
  {
  }

  // ----- the notes heading -----

  lemma ContainsInLonger(a: string, b: string, c: string)
    requires Contains(b, NOTES_TITLE)
    ensures Contains(a + b + c, NOTES_TITLE)
  {
    var i :| 0 <= i <= |b| && OccursAt(b, NOTES_TITLE, i);
    var t := a + b + c;
    assert t[|a| + i..|a| + i + |NOTES_TITLE|] == b[i..i + |NOTES_TITLE|];
    assert OccursAt(t, NOTES_TITLE, |a| + i);
  }

  /** Once the body has the notes heading, every later note is added without one. */
  lemma HeadingIsAddedOnce(content: string, edits: seq<Edit>, stamp: string, text: string)
    requires Closed(content) && forall e | e in edits && e.Rewrite? :: Marshalled(e.yaml)
    requires Split(content).Some? && Contains(Split(content).value.body, NOTES_TITLE)
    ensures Apply(ApplyAll(content, edits), Note(stamp, text)) == ApplyAll(content, edits) + NoteText(stamp, text)
  {
    RunOnlyExtendsBody(content, edits);
    var now := ApplyAll(content, edits);
    ClosedSplits(now);
    var p := Split(now).value;
    hide Split, Contains, Closed, Marshalled;
    ContainsInLonger(OPENING + p.yaml + CLOSING, Split(content).value.body, Additions(content, edits));
    Reassociate(OPENING + p.yaml + CLOSING, Split(content).value.body, Additions(content, edits));
    assert "" + NoteText(stamp, text) == NoteText(stamp, text);
  }
}

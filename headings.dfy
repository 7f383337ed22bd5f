/** `increment_headings`: the two MULTILINE regular-expression substitutions
    on a README's Markdown, written as left-to-right scans. `re.sub` tries the
    pattern at each position; after a match it resumes where the match ended,
    otherwise it copies one character. `^` matches at the start of the string
    and after every newline of the string being scanned. The scans below walk
    a suffix `u` of that string and carry `atLineStart`, which says whether
    `^` matches in front of `u[0]`. */
module Headings {
  import opened Strings

  /** Length of the run of `#` at the start of `u`. */
  function HashRun(u: string): (n: nat)
    ensures n <= |u|
    ensures forall i :: 0 <= i < n ==> u[i] == '#'
    ensures n < |u| ==> u[n] != '#'
  {
    if |u| == 0 || u[0] != '#' then 0 else 1 + HashRun(u[1..])
  }

  /** `re.sub(r"^(#+)\s*", r"\1 ", u, 0, re.M)` on a suffix `u`. The greedy
      `\s*` also swallows newlines, and `^` at the resumption point looks at
      the last character the match swallowed. */
  function NormalizeFrom(u: string, atLineStart: bool): string
    decreases |u|
  {
    if |u| == 0 then ""
    else if atLineStart && u[0] == '#' then
      var n := HashRun(u);
      var w := LeadingSpaces(u[n..]);
      u[..n] + " " + NormalizeFrom(u[n + w..], w > 0 && u[n + w - 1] == '\n')
    else [u[0]] + NormalizeFrom(u[1..], u[0] == '\n')
  }

  /** The first substitution of `increment_headings`. */
  function Normalize(markdown: string): string {
    NormalizeFrom(markdown, true)
  }

  /** `v` starts with a run of `#`, one space, then the end or a non-whitespace character. */
  ghost predicate HeadingOk(v: string) {
    var n := HashRun(v);
    n < |v| && v[n] == ' ' && (n + 1 == |v| || !IsSpace(v[n + 1]))
  }

  /** `^` matches in front of `t[k]`, where `atLineStart` is the answer for `k == 0`. */
  predicate LineStart(t: string, k: int, atLineStart: bool)
    requires 0 <= k <= |t|
  {
    if k == 0 then atLineStart else t[k - 1] == '\n'
  }

  /** Every run of `#` at a line start of `t` is followed by exactly one space
      and then by a non-whitespace character or the end. */
  ghost predicate NormalizedFrom(t: string, atLineStart: bool) {
    forall k :: 0 <= k < |t| && LineStart(t, k, atLineStart) && t[k] == '#' ==> HeadingOk(t[k..])
  }

  /** The first character survives normalization. */
  lemma NormalizeFirst(u: string, f: bool)
    requires |u| > 0
    ensures |NormalizeFrom(u, f)| > 0 && NormalizeFrom(u, f)[0] == u[0]
  {
  }

  /** The step of `NormalizeEstablishes` at a line-start `#` run: the run, one
      space, then normalized text that does not start with whitespace. */
  lemma NormalizedHeadingStep(run: string, rest: string, g: bool)
    requires |run| > 0 && forall i :: 0 <= i < |run| ==> run[i] == '#'
    requires |rest| > 0 ==> !IsSpace(rest[0])
    requires NormalizedFrom(rest, g)
    ensures NormalizedFrom(run + " " + rest, true)
  {
    var n := |run|;
    var out := run + " " + rest;
    HashRunConcat(run, " " + rest);
    assert out == run + (" " + rest);
    assert out[n] == ' ';
    forall k | 0 <= k < |out| && LineStart(out, k, true) && out[k] == '#'
      ensures HeadingOk(out[k..])
    {
      if k > n + 1 {
        assert out[k - 1] == rest[k - n - 2];
        assert out[k..] == rest[k - n - 1..];
        assert LineStart(rest, k - n - 1, g);
      } else {
        assert k == 0;
        if |rest| > 0 {
          assert out[n + 1] == rest[0];
        }
      }
    }
  }

  /** The step of `NormalizeEstablishes` at a character that is copied. */
  lemma NormalizedCopyStep(c: char, rest: string, f: bool)
    requires !(f && c == '#')
    requires NormalizedFrom(rest, c == '\n')
    ensures NormalizedFrom([c] + rest, f)
  {
    var out := [c] + rest;
    forall k | 0 <= k < |out| && LineStart(out, k, f) && out[k] == '#'
      ensures HeadingOk(out[k..])
    {
      assert k > 0;
      assert out[k..] == rest[k - 1..];
      assert LineStart(rest, k - 1, c == '\n');
    }
  }

  /** After the first substitution every line-start run of `#` is followed by
      exactly one space, then a non-whitespace character or the end. */
  lemma {:induction false} NormalizeEstablishes(u: string, f: bool)
    ensures NormalizedFrom(NormalizeFrom(u, f), f)
    decreases |u|
  {
    if |u| == 0 {
    } else if f && u[0] == '#' {
      var n := HashRun(u);
      var w := LeadingSpaces(u[n..]);
      var g := w > 0 && u[n + w - 1] == '\n';
      var tail := u[n + w..];
      NormalizeEstablishes(tail, g);
      var rest := NormalizeFrom(tail, g);
      if |tail| > 0 {
        NormalizeFirst(tail, g);
        assert rest[0] == u[n..][w];
      }
      NormalizedHeadingStep(u[..n], rest, g);
      assert NormalizeFrom(u, f) == u[..n] + " " + rest;
    } else {
      var rest := NormalizeFrom(u[1..], u[0] == '\n');
      NormalizeEstablishes(u[1..], u[0] == '\n');
      NormalizedCopyStep(u[0], rest, f);
      assert NormalizeFrom(u, f) == [u[0]] + rest;
    }
  }

  /** A normalized line-start `#` run is followed by exactly one space, and
      the text after that space is normalized too. */
  lemma NormalizedHeadingParts(u: string)
    requires NormalizedFrom(u, true) && |u| > 0 && u[0] == '#'
    ensures var n := HashRun(u);
              n < |u| && u[n] == ' ' && LeadingSpaces(u[n..]) == 1 && NormalizedFrom(u[n + 1..], false)
  {
    assert LineStart(u, 0, true);
    var n := HashRun(u);
    assert HeadingOk(u[0..]);
    assert u[0..] == u;
    var v := u[n + 1..];
    forall k | 0 <= k < |v| && LineStart(v, k, false) && v[k] == '#'
      ensures HeadingOk(v[k..])
    {
      assert u[n + 1 + k - 1] == '\n';
      assert LineStart(u, n + 1 + k, true);
      assert v[k..] == u[n + 1 + k..];
    }
  }

  /** Text after a copied character of normalized text is normalized. */
  lemma NormalizedTail(u: string, f: bool)
    requires NormalizedFrom(u, f) && |u| > 0 && !(f && u[0] == '#')
    ensures NormalizedFrom(u[1..], u[0] == '\n')
  {
    var v := u[1..];
    forall k | 0 <= k < |v| && LineStart(v, k, u[0] == '\n') && v[k] == '#'
      ensures HeadingOk(v[k..])
    {
      assert LineStart(u, k + 1, f);
      assert v[k..] == u[k + 1..];
    }
  }

  /** At a line-start `#` run followed by exactly one space, the first
      substitution keeps the run and the space and goes on after them. */
  lemma NormalizeAtHeading(u: string, n: nat)
    requires |u| > 0 && u[0] == '#' && n == HashRun(u)
    requires n < |u| && u[n] == ' ' && LeadingSpaces(u[n..]) == 1
    ensures NormalizeFrom(u, true) == u[..n] + " " + NormalizeFrom(u[n + 1..], false)
  {
  }

  /** The step of `NormalizeFixes` at a character that is copied. */
  lemma NormalizeKeepsChar(u: string, f: bool)
    requires |u| > 0 && !(f && u[0] == '#')
    requires NormalizeFrom(u[1..], u[0] == '\n') == u[1..]
    ensures NormalizeFrom(u, f) == u
  {
    assert u == [u[0]] + u[1..];
  }

  /** Text whose headings are already normalized is left as it is. */
  lemma {:induction false} NormalizeFixes(u: string, f: bool)
    requires NormalizedFrom(u, f)
    ensures NormalizeFrom(u, f) == u
    decreases |u|
  {
    if |u| == 0 {
    } else if f && u[0] == '#' {
      NormalizedHeadingParts(u);
      var n := HashRun(u);
      NormalizeFixes(u[n + 1..], false);
      NormalizeAtHeading(u, n);
      assert u == u[..n] + " " + u[n + 1..];
    } else {
      NormalizedTail(u, f);
      NormalizeFixes(u[1..], u[0] == '\n');
      NormalizeKeepsChar(u, f);
    }
  }

  /** The first substitution is idempotent. */
  lemma NormalizeIdempotent(markdown: string)
    ensures Normalize(Normalize(markdown)) == Normalize(markdown)
  {
    NormalizeEstablishes(markdown, true);
    NormalizeFixes(Normalize(markdown), true);
  }

  /** No `#` at the start of any line of `t`. */
  predicate NoHeadings(t: string) {
    forall k | 0 <= k < |t| :: LineStart(t, k, true) ==> t[k] != '#'
  }

  /** `re.compile(r"^# ", re.M).search(t)`: some line of `t` starts with `# `. */
  predicate HasTitleHeading(t: string) {
    exists k | 0 <= k < |t| :: LineStart(t, k, true) && StartsWith(t[k..], "# ")
  }

  /** `re.sub(r"^(#+)", r"\1# ", u, 0, re.M)` on a suffix `u`. */
  function DemoteFrom(u: string, atLineStart: bool): string
    decreases |u|
  {
    if |u| == 0 then ""
    else if atLineStart && u[0] == '#' then
      var n := HashRun(u);
      u[..n] + "# " + DemoteFrom(u[n..], false)
    else [u[0]] + DemoteFrom(u[1..], u[0] == '\n')
  }

  /** `increment_headings(markdown)`. */
  function IncrementHeadings(markdown: string): string {
    var t := Normalize(markdown);
    if HasTitleHeading(t) then DemoteFrom(t, true) else t
  }

  /** `re.sub(r"^(#+)", r"\1# ", line, 0, re.M)` on a single line: a line that
      starts (at a line start) with `#` gets one more `#`, then a space, then
      the rest of the line after its `#` run; any other line is unchanged. */
  function DemoteLine(line: string, atLineStart: bool): (r: string)
    ensures atLineStart && |line| > 0 && line[0] == '#' ==>
              HashRun(r) == HashRun(line) + 1 && HashRun(r) < |r| && r[HashRun(r)] == ' ' &&
              r[HashRun(r) + 1..] == line[HashRun(line)..]
    ensures !(atLineStart && |line| > 0 && line[0] == '#') ==> r == line
  {
    if atLineStart && |line| > 0 && line[0] == '#' then
      var n := HashRun(line);
      var r := line[..n] + "# " + line[n..];
      assert forall i :: 0 <= i <= n ==> r[i] == '#';
      assert r[n + 1] == ' ';
      assert HashRun(r) == n + 1;
      assert r[n + 2..] == line[n..];
      r
    else line
  }

  /** Text without a newline is copied when `^` does not match at its start. */
  lemma {:induction false} DemoteCopies(v: string)
    requires '\n' !in v
    ensures DemoteFrom(v, false) == v
  {
    if |v| > 0 {
      assert '\n' !in v[1..];
      DemoteCopies(v[1..]);
      assert v == [v[0]] + v[1..];
    }
  }

  /** Within a line, the second substitution is `DemoteLine`. */
  lemma {:induction false} DemoteLastLine(line: string, f: bool)
    requires '\n' !in line
    ensures DemoteFrom(line, f) == DemoteLine(line, f)
  {
    if |line| > 0 {
      if f && line[0] == '#' {
        var n := HashRun(line);
        assert '\n' !in line[n..];
        DemoteCopies(line[n..]);
      } else {
        assert '\n' !in line[1..];
        DemoteCopies(line[1..]);
        assert line == [line[0]] + line[1..];
      }
    }
  }

  /** Appending text after a `#` run that has already ended keeps the run. */
  lemma HashRunConcat(a: string, b: string)
    requires HashRun(a) < |a| || (|b| > 0 && b[0] != '#')
    ensures HashRun(a + b) == HashRun(a)
  {
    var n := HashRun(a);
    assert forall i :: 0 <= i < n ==> (a + b)[i] == '#';
    assert (a + b)[n] != '#';
  }

  /** The step of `DemoteSplitsAtNewline` at a line-start `#` run; `d` stands
      for the demoted text after the newline. */
  lemma DemoteSplitsHeadingStep(line: string, rest: string, d: string)
    requires '\n' !in line && |line| > 0 && line[0] == '#'
    requires var n := HashRun(line);
               DemoteFrom(line[n..] + "\n" + rest, false) == line[n..] + "\n" + d
    ensures DemoteFrom(line + "\n" + rest, true) == DemoteLine(line, true) + "\n" + d
  {
    var u := line + "\n" + rest;
    var n := HashRun(line);
    HashRunConcat(line, "\n" + rest);
    assert u == line + ("\n" + rest);
    assert u[..n] == line[..n];
    assert u[n..] == line[n..] + "\n" + rest;
    assert DemoteFrom(u, true) == u[..n] + "# " + DemoteFrom(u[n..], false);
  }

  /** The step of `DemoteSplitsAtNewline` at a character that is copied; `d`
      stands for the demoted text after the newline. */
  lemma DemoteSplitsCopyStep(line: string, rest: string, f: bool, d: string)
    requires '\n' !in line && |line| > 0 && !(f && line[0] == '#')
    requires DemoteFrom(line[1..] + "\n" + rest, false) == line[1..] + "\n" + d
    ensures DemoteFrom(line + "\n" + rest, f) == line + "\n" + d
  {
    var u := line + "\n" + rest;
    assert u[0] == line[0] != '\n';
    assert u[1..] == line[1..] + "\n" + rest;
    assert DemoteFrom(u, f) == [u[0]] + DemoteFrom(u[1..], false);
    assert line == [line[0]] + line[1..];
  }

  /** The second substitution works line by line: it demotes the first line and
      then the rest, where `^` matches again after the newline. */
  lemma {:induction false} DemoteSplitsAtNewline(line: string, rest: string, f: bool)
    requires '\n' !in line
    ensures DemoteFrom(line + "\n" + rest, f) == DemoteLine(line, f) + "\n" + DemoteFrom(rest, true)
    decreases |line|
  {
    if |line| == 0 {
      assert (line + "\n" + rest)[1..] == rest;
    } else if f && line[0] == '#' {
      var n := HashRun(line);
      assert '\n' !in line[n..];
      DemoteSplitsAtNewline(line[n..], rest, false);
      DemoteSplitsHeadingStep(line, rest, DemoteFrom(rest, true));
    } else {
      assert '\n' !in line[1..];
      DemoteSplitsAtNewline(line[1..], rest, false);
      DemoteSplitsCopyStep(line, rest, f, DemoteFrom(rest, true));
    }
  }

  /** Every line-start `#` of `t` is followed by another `#`: no heading of level one. */
  ghost predicate NoLevelOne(t: string, atLineStart: bool) {
    forall k :: 0 <= k < |t| && LineStart(t, k, atLineStart) && t[k] == '#' ==> k + 1 < |t| && t[k + 1] == '#'
  }

  /** After the second substitution no heading has level one. */
  lemma {:induction false} DemoteDeepens(u: string, f: bool)
    ensures NoLevelOne(DemoteFrom(u, f), f)
    decreases |u|
  {
    if |u| == 0 {
    } else if f && u[0] == '#' {
      var n := HashRun(u);
      var rest := DemoteFrom(u[n..], false);
      DemoteDeepens(u[n..], false);
      var out := u[..n] + "# " + rest;
      assert DemoteFrom(u, f) == out;
      forall k | 0 <= k < |out| && LineStart(out, k, f) && out[k] == '#'
        ensures k + 1 < |out| && out[k + 1] == '#'
      {
        if k == 0 {
          assert out[1] == '#';
        } else if k > n + 2 {
          assert out[k - 1] == rest[k - n - 3];
          assert LineStart(rest, k - n - 2, false);
        }
      }
    } else {
      var rest := DemoteFrom(u[1..], u[0] == '\n');
      DemoteDeepens(u[1..], u[0] == '\n');
      var out := [u[0]] + rest;
      forall k | 0 <= k < |out| && LineStart(out, k, f) && out[k] == '#'
        ensures k + 1 < |out| && out[k + 1] == '#'
      {
        assert k > 0;
        assert LineStart(rest, k - 1, u[0] == '\n');
      }
    }
  }

  /** `increment_headings` leaves no level-one heading: either the text had one
      and every heading went one level down, or it had none to begin with. */
  lemma NoTitleHeadingAfterIncrement(markdown: string)
    ensures !HasTitleHeading(IncrementHeadings(markdown))
  {
    var t := Normalize(markdown);
    if HasTitleHeading(t) {
      var r := DemoteFrom(t, true);
      DemoteDeepens(t, true);
      forall k | 0 <= k < |r| && LineStart(r, k, true)
        ensures !StartsWith(r[k..], "# ")
      {
        if k + 2 <= |r| {
          assert r[k..][..2] == [r[k], r[k + 1]];
        }
      }

    }
  }

  /** Text with no line starting with `#` comes back unchanged. */
  lemma IncrementHeadingsKeepsPlainText(markdown: string)
    requires NoHeadings(markdown)
    ensures IncrementHeadings(markdown) == markdown
  {
    assert NormalizedFrom(markdown, true);
    NormalizeFixes(markdown, true);

  }

  /** The replacement `\1# ` keeps the space the first substitution left, so a
      level-one heading `# t` becomes `##  t`, with two spaces. */
  lemma DemoteDoublesSpace()
    ensures IncrementHeadings("# t") == "##  t"
  {
    var s := "# t";
    assert HashRun(s) == 1 by { assert HashRun(s[1..]) == 0; }
    assert LeadingSpaces(s[1..]) == 1 by { assert s[1..][1..] == "t"; }
    assert Normalize(s) == s by {
      assert s[2..] == "t";
      assert NormalizeFrom("t", false) == "t";
    }
    assert HasTitleHeading(s) by { assert LineStart(s, 0, true) && s[0..] == s; }
    assert DemoteFrom(s, true) == "#" + "# " + DemoteFrom(s[1..], false);
    assert s[1..] == " t";
    DemoteCopies(" t");
  }

  /** `\s*` is greedy and matches newlines: a heading marker alone on its line
      absorbs the blank lines after it and joins the next line. */
  lemma NormalizeJoinsLines()
    ensures Normalize("#\n\nx") == "# x"
  {
    var s := "#\n\nx";
    assert HashRun(s) == 1 by { assert HashRun(s[1..]) == 0; }
    assert LeadingSpaces(s[1..]) == 2 by {
      assert s[1..][1..][1..] == "x";
      assert LeadingSpaces("x") == 0;
    }
    assert s[3..] == "x";
    assert NormalizeFrom("x", true) == "x";
  }

  /** Text that begins with a level-one heading always takes the demoting
      branch of `increment_headings`. */
  lemma TitleLineTriggersDemotion(text: string)
    requires StartsWith(text, "# ")
    ensures HasTitleHeading(Normalize(text))
    ensures IncrementHeadings(text) == DemoteFrom(Normalize(text), true)
  {
    assert text[0] == '#' && text[1] == ' ' by { assert text[..2] == "# "; }
    assert HashRun(text) == 1;
    var t := Normalize(text);
    assert t[..2] == "# ";
    assert LineStart(t, 0, true) && t[0..] == t;
  }
}

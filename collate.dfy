/** `print_collated_readme`: one Markdown section per repository, made of the
    README with a title that names the author, followed by a separator. */
module Collate {
  import opened Wrappers
  import opened Strings
  import opened Repos
  import opened Headings

  /** Where the Python loop raises and stops. */
  datatype CollateError =
    | MissingReadme      // `r["readme"]` is None: subscripting it raises TypeError
    | HeadingOnlyReadme  // a one-line `# ...` README: the two-way unpack of `split` raises ValueError

  /** The title that is replaced by the author's name. */
  const AboutMe := "# About Me"

  /** `print("\n---\n")`, without the newline `print` adds. */
  const Separator := "\n---\n"

  /** `if about.startswith("# "): title, about = about.split("\n", 1)`: the
      title line, if any, and the rest of the README. */
  function SplitTitle(about: string): (r: Result<(Option<string>, string), CollateError>)
    ensures r.Err? <==> StartsWith(about, "# ") && '\n' !in about
    ensures r.Err? ==> r.error == HeadingOnlyReadme
    ensures r.Ok? && r.value.0.Some? ==>
              about == r.value.0.value + "\n" + r.value.1 &&
              StartsWith(r.value.0.value, "# ") && '\n' !in r.value.0.value
    ensures r.Ok? && r.value.0.None? ==> r.value.1 == about && !StartsWith(about, "# ")
  {
    if StartsWith(about, "# ") then
      match IndexOf(about, '\n')
      case None => Err(HeadingOnlyReadme)
      case Some(i) =>
        assert about[..i][..2] == about[..2];
        Ok((Some(about[..i]), about[i + 1..]))
    else Ok((None, about))
  }

  /** The title rules: a missing, empty or "# About Me" title becomes `# name`;
      ` (name)` is appended when the name does not occur in the title. */
  function ComposeTitle(title: Option<string>, name: string): (t: string)
    ensures Contains(t, name)
    ensures title.None? || title.value == "" || title.value == AboutMe ==> t == "# " + name
    ensures title.Some? && title.value != "" && title.value != AboutMe ==>
              t == (if Contains(title.value, name) then title.value else title.value + " (" + name + ")")
  {
    if title.None? || title.value == "" || title.value == AboutMe then
      assert OccursAt("# " + name, name, 2);
      "# " + name
    else if Contains(title.value, name) then title.value
    else
      assert OccursAt(title.value + " (" + name + ")", name, |title.value| + 2);
      title.value + " (" + name + ")"
  }

  /** The text printed for one repository: its stripped README under the
      composed title, with the headings incremented. */
  function Section(r: Repo): (s: Result<string, CollateError>)
    ensures r.readme.None? ==> s == Err(MissingReadme)
    ensures r.readme.Some? ==>
              (s.Err? <==> StartsWith(Strip(r.readme.value), "# ") && '\n' !in Strip(r.readme.value))
  {
    match r.readme
    case None => Err(MissingReadme)
    case Some(text) =>
      match SplitTitle(Strip(text))
      case Err(e) => Err(e)
      case Ok((title, about)) =>
        Ok(IncrementHeadings(ComposeTitle(title, r.author) + "\n" + about))
  }

  /** No line of a printed section is a level-one heading. */
  lemma SectionHasNoTitleHeading(r: Repo)
    requires Section(r).Ok?
    ensures !HasTitleHeading(Section(r).value)
  {
    var split := SplitTitle(Strip(r.readme.value));
    NoTitleHeadingAfterIncrement(ComposeTitle(split.value.0, r.author) + "\n" + split.value.1);
  }

  /** The composed title is always a level-one heading line. */
  lemma ComposeTitleIsHeading(title: Option<string>, name: string)
    requires title.Some? ==> StartsWith(title.value, "# ")
    ensures StartsWith(ComposeTitle(title, name), "# ")
  {
    if title.Some? && title.value != "" && title.value != AboutMe && !Contains(title.value, name) {
      assert ComposeTitle(title, name)[..2] == title.value[..2];
    }
  }

  /** A README title line: a level-one heading with no newline in it. */
  predicate TitleLine(t: string) {
    StartsWith(t, "# ") && '\n' !in t
  }

  /** `about` is what is left of the stripped README `text` once its title
      line, if it has one, is taken off. */
  ghost predicate BodyOf(text: string, about: string) {
    (text == about && !StartsWith(text, "# ")) ||
    exists t :: TitleLine(t) && text == t + "\n" + about
  }

  /** Every section is the README's body under a `# ` title that names the
      author, and every heading of both, the title included, goes one level down. */
  lemma SectionIsDemoted(r: Repo)
    requires Section(r).Ok?
    ensures exists title, about ::
              Contains(title, r.author) && StartsWith(title, "# ") &&
              BodyOf(Strip(r.readme.value), about) &&
              Section(r).value == DemoteFrom(Normalize(title + "\n" + about), true)
  {
    var split := SplitTitle(Strip(r.readme.value));
    var title := ComposeTitle(split.value.0, r.author);
    var about := split.value.1;
    if split.value.0.Some? {
      assert TitleLine(split.value.0.value);
    }
    assert BodyOf(Strip(r.readme.value), about);
    ComposeTitleIsHeading(split.value.0, r.author);
    var text := title + "\n" + about;
    assert StartsWith(text, "# ") by {
      assert text[..2] == title[..2];
    }
    assert Section(r).value == IncrementHeadings(text);
    TitleLineTriggersDemotion(text);
  }

  /** One pass of the loop body of `print_collated_readme`: the section to print
      for `r`, or where the body raises. */
  method ComposeSection(r: Repo) returns (section: Result<string, CollateError>)
    ensures section == Section(r)
  {
    var name := r.author;
    if r.readme.None? {
      return Err(MissingReadme);
    }
    var title: Option<string> := None;
    var about := Strip(r.readme.value);
    if StartsWith(about, "# ") {
      var newline := IndexOf(about, '\n');
      if newline.None? {
        return Err(HeadingOnlyReadme);
      }
      title, about := Some(about[..newline.value]), about[newline.value + 1..];
    }
    var t: string;
    if title.None? || title.value == "" || title.value == AboutMe {
      t := "# " + name;
    } else {
      t := title.value;
    }
    if !Contains(t, name) {
      t := t + " (" + name + ")";
    }
    assert t == ComposeTitle(title, name);
    section := Ok(IncrementHeadings(t + "\n" + about));
  }

  /** `out` is what the loop prints for the first `n` repositories: the
      section of each, in order, each followed by the separator. */
  ghost predicate PrintedFirst(repos: seq<Repo>, out: seq<string>, n: nat) {
    n <= |repos| && |out| == 2 * n && forall i :: 0 <= i < n ==> PrintedAt(repos, out, i)
  }

  /** Lines `2 * i` and `2 * i + 1` of `out` are the section of repository `i` and the separator. */
  ghost predicate PrintedAt(repos: seq<Repo>, out: seq<string>, i: nat)
    requires i < |repos| && 2 * i + 1 < |out|
  {
    Section(repos[i]) == Ok(out[2 * i]) && out[2 * i + 1] == Separator
  }

  /** Printing the next section and a separator extends what was printed by one repository. */
  lemma PrintedFirstExtend(repos: seq<Repo>, out: seq<string>, n: nat, text: string)
    requires PrintedFirst(repos, out, n) && n < |repos| && Section(repos[n]) == Ok(text)
    ensures PrintedFirst(repos, out + [text, Separator], n + 1)
  {
    var next := out + [text, Separator];
    forall k | 0 <= k < n + 1
      ensures PrintedAt(repos, next, k)
    {
      if k < n {
        assert PrintedAt(repos, out, k);
        assert next[2 * k] == out[2 * k] && next[2 * k + 1] == out[2 * k + 1];
      }
    }
  }

  /** Every repository whose section was printed did not raise. */
  lemma PrintedFirstAllOk(repos: seq<Repo>, out: seq<string>, n: nat)
    requires PrintedFirst(repos, out, n)
    ensures forall k :: 0 <= k < n ==> Section(repos[k]).Ok?
  {
    forall k | 0 <= k < n
      ensures Section(repos[k]).Ok?
    {
      assert PrintedAt(repos, out, k);
    }
  }

  /** `print_collated_readme(repos)`: prints each repository's section and a
      separator, in order, until a repository raises. Returns what was printed
      and whether every repository was printed. */
  method PrintCollatedReadme(repos: seq<Repo>) returns (out: seq<string>, ok: bool)
    ensures ok <==> forall i :: 0 <= i < |repos| ==> Section(repos[i]).Ok?
    ensures PrintedFirst(repos, out, |out| / 2)
    ensures |out| / 2 < |repos| ==> Section(repos[|out| / 2]).Err?
  {
    out, ok := [], true;
    var i := 0;
    while ok && i < |repos|
      invariant PrintedFirst(repos, out, i)
      invariant ok ==> i <= |repos|
      invariant !ok ==> i < |repos| && Section(repos[i]).Err?
    {
      var section := ComposeSection(repos[i]);
      if section.Err? {
        ok := false;
      } else {
        PrintedFirstExtend(repos, out, i, section.value);
        out, i := out + [section.value, Separator], i + 1;
      }
    }
    assert |out| / 2 == i;
    PrintedFirstAllOk(repos, out, i);
  }
}

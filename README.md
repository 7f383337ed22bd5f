# collate_readmes, modelled in Dafny

`collate_readmes.py` builds one Markdown document out of the README files of
the student repositories generated from a GitHub template repository. It does
so in these steps:

1. It fetches the organisation's repositories and picks out the template
   ("master") and the repositories generated from it.
2. It derives each student's login by removing the longest common prefix from
   the repository names.
3. It looks up the student's display name in a roster, falling back to the
   login.
4. It keeps each repository's commits that were not made by the instructor.
5. It drops the repositories without commits and sorts the rest by author.
6. It prints every README under a title that names the author, and a `---`
   separator after each. Every heading goes one level down, the composed
   title included, so no section contains a level-one heading.

A second report, which `main` has switched off, lists repositories with no
commits or with commits after the deadline.

This project models that string and list layer. The modules are:

- `Wrappers`: `Option` and `Result`.
- `Strings`: Python's whitespace (`str.isspace`), `strip`, `startswith`,
  substring containment, the search for the first newline inside
  `split("\n", 1)`, `join` and string order `<`. The order is
  proved to be a strict total order.
- `Seqs`: list comprehensions with a condition (`Filter`).
- `Sorting`: `list.sort(key=...)` as a stable sort by a string key. The
  result is proved sorted, a permutation of the input and stable.
- `Repos`: the repository records, the template/fork selection, and the
  filter-then-sort step of `main`.
- `Logins`: `longest_prefix` and `annotate_repos`. The latter is a method
  that updates an array of records in place.
- `LateCommits`: `is_late_commit` and the two loops of `print_late_commits`.
- `Headings`: `increment_headings`. Its two multi-line regular-expression
  substitutions are scans over the text. A flag records whether `^` matches
  at the current position, which is true at the start of the text and after
  each `\n`.
- `Collate`: the title rules and the printing loop of `print_collated_readme`.

Printing is modelled as returning the printed strings, one element per `print`
call. The exception is the second loop of `print_late_commits`: it returns one
record per late repository, holding the login and the set of late dates.

Python's exceptions become `Result` errors or `None`:

- `next` on an empty generator (`StopIteration`);
- `min()` of an empty sequence in `longest_prefix` (`ValueError`);
- `None["text"]` (`TypeError`);
- a two-way unpack of a one-element `split` (`ValueError`).

## Model

| member | source | states |
|---|---|---|
| Repos.FindMaster | collate_readmes.py:123 | the result is the first repository whose full name matches; None (StopIteration) exactly when none matches |
| Repos.Forks | collate_readmes.py:124-129 | exactly the repositories whose template is the given repository |
| Repos.GeneratedRepos | collate_readmes.py:123-130 | defined exactly when the template is present; then it is returned with exactly the repositories generated from it |
| Repos.SortByAuthor | collate_readmes.py:247 | the result is the stable sort by author: sorted by author, a permutation of the input, and equal authors keep their relative order |
| Repos.SelectForCollation | collate_readmes.py:246-247 | keeps exactly the repositories with commits, sorted by author |
| Sorting.SortBySorted | collate_readmes.py:247 | the sort's result is ordered by key |
| Sorting.SortByPermutes | collate_readmes.py:247 | the sort's result is a permutation of its input |
| Sorting.SortByStable | collate_readmes.py:247 | for every key, the elements with that key keep their input order |
| Sorting.InsertAt | collate_readmes.py:247 | an element is inserted after every element whose key is not larger, and before the first whose key is larger |
| Seqs.FilterInOrder | collate_readmes.py:152-156 | a list comprehension with a condition keeps every element that meets it and nothing else, in input order: the result is the subsequence at an increasing list of positions that covers every element meeting the condition |
| Strings.Strip | collate_readmes.py:232 | the result is a contiguous slice of the input; everything cut off at either end is whitespace, and the result neither starts nor ends with whitespace |
| Strings.IndexOf | collate_readmes.py:234 | the first position of the character, or None exactly when it does not occur |
| Strings.LeadingSpaces | collate_readmes.py:221 | the length of the maximal whitespace run that `\s*` consumes |
| Strings.LessCharacterized | collate_readmes.py:179 | Python's string `<` holds exactly when the first string is a proper prefix of the second or is smaller at the first position where they differ |
| Strings.LessIrreflexive | collate_readmes.py:179 | no string is less than itself |
| Strings.LessTransitive | collate_readmes.py:179 | string `<` is transitive |
| Strings.LessTrichotomous | collate_readmes.py:198 | any two strings are equal or ordered one way, never both ways |
| Logins.MinLength | collate_readmes.py:137 | the length of a shortest name: no name is shorter, and some name has that length |
| Logins.PrefixesSingleton | collate_readmes.py:138 | the set of length-n prefixes has one element exactly when all names share their first n characters |
| Logins.SearchPrefix | collate_readmes.py:135-139 | counting down from n, the result is the first length at which all names share a prefix; None when no length of at least 1 works |
| Logins.LongestPrefix | collate_readmes.py:133-139 | defined exactly when there is a name and all names share a first character; the result is non-empty and a prefix of every name |
| Logins.LongestPrefixIsLongest | collate_readmes.py:133-139 | every prefix common to all names is a prefix of the chosen one, so no longer prefix is shared |
| Logins.StudentCommits | collate_readmes.py:152-156 | a commit is kept exactly when it is in the history and its author email is not the instructor's; nothing is added |
| Logins.Annotate | collate_readmes.py:148-156 | prefix followed by login gives the name; the author is the roster's entry for the login, or the login when it is absent; commits are the student commits; no other field changes |
| Logins.AnnotateRepos | collate_readmes.py:142-156 | the returned prefix is the names' longest common prefix. On failure the array is unchanged; otherwise every element is its old value annotated under that prefix |
| LateCommits.CutoffIsNotLate | collate_readmes.py:178-179 | a commit dated exactly at the cutoff is not late |
| LateCommits.LaterIsLate | collate_readmes.py:178-179 | a commit dated after a late commit is late |
| LateCommits.Category | collate_readmes.py:185-196 | each repository gets at most one warning, by priority: "No commits" exactly when it has no commits; "Late" when it has commits and all are late; "Some late commits" when some but not all are late; none when none is late |
| LateCommits.Bucket | collate_readmes.py:194-196 | after removing those already reported, a warning's list holds exactly the repositories whose category is that warning |
| LateCommits.ReportWarnings | collate_readmes.py:182-198 | the reported list is the three buckets in priority order and holds exactly the repositories with a warning. One line is printed per non-empty bucket; it carries the label and the bucket's sorted logins, and empty buckets print nothing |
| LateCommits.LateTimestamps | collate_readmes.py:200-204 | a date is in the set exactly when some late commit of the repository has it as its author date; every such date is after the cutoff, and the set is empty exactly when no commit is late |
| LateCommits.LateCommitsExist | collate_readmes.py:200-202 | the late-commit list is empty exactly when the repository has no late commit, so the `continue` skips exactly those |
| LateCommits.LateDetailsStep | collate_readmes.py:199-204 | one iteration appends a detail exactly when the repository has a late commit; the detail holds its login and its late dates |
| LateCommits.DetailsNonEmpty | collate_readmes.py:199-204 | every repository listed with late dates has at least one date |
| LateCommits.LateDetails | collate_readmes.py:199-204 | the second loop lists, in input order, exactly the repositories with a late commit, with non-empty sets of late dates |
| Headings.HashRun | collate_readmes.py:221 | the length of the maximal run of `#` that `(#+)` matches |
| Headings.NormalizeFirst | collate_readmes.py:221 | normalisation keeps the first character |
| Headings.NormalizeEstablishes | collate_readmes.py:221 | after normalisation, every `#` run at a line start is followed by exactly one space, then by the end or a non-whitespace character |
| Headings.NormalizeFixes | collate_readmes.py:221 | a text already in that form is left unchanged, including a text with no `#` at a line start |
| Headings.NormalizeIdempotent | collate_readmes.py:221 | normalising twice is the same as normalising once |
| Headings.NormalizeJoinsLines | collate_readmes.py:221 | `\s*` also consumes newlines: `#`, a blank line and `x` become the single line `# x` |
| Headings.DemoteLine | collate_readmes.py:224 | a heading line at a line start gets one more `#`, then a space, then the line's remainder after its `#` run; any other line is unchanged |
| Headings.DemoteCopies | collate_readmes.py:224 | inside a line, away from a line start, the substitution changes nothing |
| Headings.DemoteLastLine | collate_readmes.py:224 | on the text's last line the substitution acts as on a single line |
| Headings.DemoteSplitsAtNewline | collate_readmes.py:224 | the substitution works line by line: the first line is demoted on its own, and the rest is processed from a line start |
| Headings.DemoteDeepens | collate_readmes.py:224 | after demotion, no `#` at a line start is a lone `#`, so no heading has level one |
| Headings.NoTitleHeadingAfterIncrement | collate_readmes.py:221-225 | the result of `increment_headings` has no line starting with `# ` |
| Headings.IncrementHeadingsKeepsPlainText | collate_readmes.py:214-225 | a text with no `#` at a line start is returned unchanged |
| Headings.TitleLineTriggersDemotion | collate_readmes.py:221-224 | a text starting with `# ` still has a level-one heading after normalisation, so every heading is demoted |
| Headings.DemoteDoublesSpace | collate_readmes.py:214-225 | the replacement `\1# ` leaves two spaces: `# t` becomes `##  t` |
| Collate.SplitTitle | collate_readmes.py:233-234 | fails exactly when the README starts with `# ` and has no newline. Otherwise the title is the first line and the rest follows it, or there is no title and the text is kept whole |
| Collate.ComposeTitle | collate_readmes.py:235-238 | the title always contains the author's name. A missing, empty or `# About Me` title becomes `# ` and the name; ` (name)` is appended only when the name is absent |
| Collate.ComposeTitleIsHeading | collate_readmes.py:233-238 | the composed title always starts with `# ` |
| Collate.Section | collate_readmes.py:231-239 | fails for a missing README; otherwise fails exactly when the stripped README starts with `# ` and has no newline |
| Collate.SectionHasNoTitleHeading | collate_readmes.py:239 | no line of a printed section is a level-one heading |
| Collate.SectionIsDemoted | collate_readmes.py:232-239 | a printed section is the README's body (the stripped README without its title line) under a `# ` title that contains the author, normalised and with every heading, the title included, demoted one level |
| Collate.ComposeSection | collate_readmes.py:231-239 | one loop body computes the repository's section or its error, as `Section` defines |
| Collate.PrintedFirstExtend | collate_readmes.py:239-240 | printing a section and then the separator extends the printed output by one repository |
| Collate.PrintedFirstAllOk | collate_readmes.py:230-240 | every repository printed so far had a section |
| Collate.PrintCollatedReadme | collate_readmes.py:228-240 | the output alternates each repository's section with the separator, in order. It completes exactly when every section can be composed; otherwise it stops at the first repository whose section fails |

## Left out

- The GraphQL client and its query template (collate_readmes.py:46-58), and the paging loop of `get_generated_repos` (collate_readmes.py:109-121), are network I/O. The selection works on the already assembled list of repository records.
- `get_git_config` and the access-token lookup (collate_readmes.py:32-43) read git configuration and the environment.
- `read_roster` (collate_readmes.py:159-175) reads a CSV file with pandas. The roster is a given map from login to display name.
- Converting late dates to the China timezone and formatting them with `strftime` (collate_readmes.py:205-211) uses datetime and timezone libraries. The model keeps the set of late dates per repository.
- LateCommits.LateDetails: returns a (login, set of late dates) record per late repository in place of its printed lines. The `  login:` line (collate_readmes.py:203) is not produced as a string. The order in which Python iterates the set, and so prints it, is not modelled.
- Printing itself: each `print` call is one returned string, without the newline `print` adds.
- `main` (collate_readmes.py:243-252) is modelled as its parts. `SelectForCollation` covers lines 246-247. The constant `if False`/`if True` switches choose which report runs; `print_late_commits` is modelled although `main` disables it.
- Repos.SortByAuthor: Python's Timsort is modelled by a stable insertion sort. The result is the same, because sorted, stable and a permutation determine the output uniquely. The running time is not modelled.
- Missing nested fields other than `readme` are not modelled. This includes a repository whose `ref` is null, where Python raises `TypeError`. A repository's history is already the list of commit nodes.
- The repository's separate notebook-combining script is not modelled.

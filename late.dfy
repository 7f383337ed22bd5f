/** `is_late_commit` and `print_late_commits`: which repositories were turned
    in late or not at all. */
module LateCommits {
  import opened Wrappers
  import opened Strings
  import opened Seqs
  import opened Sorting
  import opened Repos

  /** The deadline, as an ISO-8601 string with its UTC offset. */
  const Cutoff := "2019-09-09T03:00:00+08:00"

  /** `is_late_commit(commit)`: the author date is after the cutoff, comparing
      the two strings (not the instants they denote). */
  predicate IsLateCommit(c: Commit) {
    Less(Cutoff, c.authorDate)
  }

  /** A commit dated exactly at the cutoff is not late. */
  lemma CutoffIsNotLate(c: Commit)
    requires c.authorDate == Cutoff
    ensures !IsLateCommit(c)
  {
    LessIrreflexive(Cutoff);
  }

  /** Lateness is upward closed: a commit dated after a late one is late. */
  lemma LaterIsLate(c: Commit, d: Commit)
    requires IsLateCommit(c) && Less(c.authorDate, d.authorDate)
    ensures IsLateCommit(d)
  {
    LessTransitive(Cutoff, c.authorDate, d.authorDate);
  }

  /** `all(map(is_late_commit, r["commits"]))`; true when there are no commits. */
  predicate AllLate(r: Repo) {
    forall c | c in r.commits :: IsLateCommit(c)
  }

  /** `any(map(is_late_commit, r["commits"]))`. */
  predicate AnyLate(r: Repo) {
    exists c | c in r.commits :: IsLateCommit(c)
  }

  /** The keys of the `warnings` dict, in insertion order. */
  datatype Warning = NoCommits | Late | SomeLateCommits

  const Warnings: seq<Warning> := [NoCommits, Late, SomeLateCommits]

  function Label(w: Warning): string {
    match w
    case NoCommits => "No commits"
    case Late => "Late"
    case SomeLateCommits => "Some late commits"
  }

  function Rank(w: Warning): nat {
    match w
    case NoCommits => 0
    case Late => 1
    case SomeLateCommits => 2
  }

  /** The condition of each comprehension in the `warnings` dict. */
  function Condition(w: Warning): Repo -> bool {
    match w
    case NoCommits => (r: Repo) => r.commits == []
    case Late => AllLate
    case SomeLateCommits => AnyLate
  }

  /** The values of the `warnings` dict: each list before deduplication. */
  function Candidates(repos: seq<Repo>, w: Warning): seq<Repo> {
    Filter(repos, Condition(w))
  }

  /** The one warning a repository is reported under, if any: the first
      warning, in dict order, whose condition it meets. */
  function Category(r: Repo): (w: Option<Warning>)
    ensures w == Some(NoCommits) <==> r.commits == []
    ensures w == Some(Late) <==> r.commits != [] && AllLate(r)
    ensures w == Some(SomeLateCommits) <==> AnyLate(r) && !AllLate(r)
    ensures w == None <==> !AnyLate(r) && r.commits != []
  {
    if r.commits == [] then Some(NoCommits)
    else if AllLate(r) then assert IsLateCommit(r.commits[0]); Some(Late)
    else if AnyLate(r) then Some(SomeLateCommits)
    else None
  }

  function InBucket(w: Warning): Repo -> bool {
    (r: Repo) => Category(r) == Some(w)
  }

  /** The repositories reported under `w`, in input order. */
  function Bucket(repos: seq<Repo>, w: Warning): (b: seq<Repo>)
    ensures forall r :: r in b <==> r in repos && Category(r) == Some(w)
  {
    Filter(repos, InBucket(w))
  }

  /** `sorted(...)` on strings. */
  function SortStrings(xs: seq<string>): seq<string> {
    SortBy(xs, (s: string) => s)
  }

  function LoginsOf(repos: seq<Repo>): (logins: seq<string>)
    ensures |logins| == |repos|
    ensures forall i :: 0 <= i < |repos| ==> logins[i] == repos[i].login
  {
    seq(|repos|, i requires 0 <= i < |repos| => repos[i].login)
  }

  /** What is printed for one warning: nothing when its bucket is empty, else
      the label and the bucket's logins, sorted and comma-separated. */
  function BucketLine(repos: seq<Repo>, w: Warning): seq<string> {
    var b := Bucket(repos, w);
    if b == [] then [] else [Label(w) + ": " + Join(SortStrings(LoginsOf(b)), ", ")]
  }

  /** A late repository's login with the set of its late author dates
      (printed by the script after converting each to local time). */
  datatype LateDetail = LateDetail(login: string, timestamps: set<string>)

  /** `{c["author"]["date"] for c in commits}`. */
  function Dates(commits: seq<Commit>): set<string> {
    set c | c in commits :: c.authorDate
  }

  /** The author dates of a repository's late commits. */
  function LateTimestamps(r: Repo): (ts: set<string>)
    ensures forall t :: t in ts ==> Less(Cutoff, t)
    ensures forall t :: t in ts <==> exists c :: c in r.commits && IsLateCommit(c) && c.authorDate == t
    ensures ts == {} <==> !AnyLate(r)
  {
    var late := Filter(r.commits, IsLateCommit);
    assert forall c :: c in late ==> c.authorDate in Dates(late);
    Dates(late)
  }

  /** The list `reported` after the first `i` warnings. */
  function ReportedBefore(repos: seq<Repo>, i: nat): seq<Repo>
    requires i <= |Warnings|
  {
    if i == 0 then [] else ReportedBefore(repos, i - 1) + Bucket(repos, Warnings[i - 1])
  }

  /** The lines printed for the first `i` warnings. */
  function LinesBefore(repos: seq<Repo>, i: nat): seq<string>
    requires i <= |Warnings|
  {
    if i == 0 then [] else LinesBefore(repos, i - 1) + BucketLine(repos, Warnings[i - 1])
  }

  /** The first loop of `print_late_commits(repos)`: each repository is
      reported under at most one warning, by priority "No commits", "Late",
      "Some late commits". Returns the printed lines and the list `reported`. */
  method ReportWarnings(repos: seq<Repo>) returns (lines: seq<string>, reported: seq<Repo>)
    ensures reported == Bucket(repos, NoCommits) + Bucket(repos, Late) + Bucket(repos, SomeLateCommits)
    ensures forall r :: r in reported <==> r in repos && Category(r).Some?
    ensures lines == BucketLine(repos, NoCommits) + BucketLine(repos, Late) + BucketLine(repos, SomeLateCommits)
  {
    reported, lines := [], [];
    for i := 0 to |Warnings|
      invariant reported == ReportedBefore(repos, i)
      invariant lines == LinesBefore(repos, i)
      invariant forall r :: r in reported <==> r in repos && Category(r).Some? && Rank(Category(r).value) < i
    {
      var w := Warnings[i];
      assert Rank(w) == i;
      var unreported := (r: Repo) => r !in reported;
      var rs := Filter(Candidates(repos, w), unreported);
      forall r | r in repos
        ensures Condition(w)(r) && unreported(r) <==> InBucket(w)(r)
      {
      }
      FilterFilter(repos, Condition(w), unreported, InBucket(w));
      reported := reported + rs;
      if rs != [] {
        lines := lines + [Label(w) + ": " + Join(SortStrings(LoginsOf(rs)), ", ")];
      }
    }
    assert ReportedBefore(repos, 1) == Bucket(repos, NoCommits);
    assert LinesBefore(repos, 1) == BucketLine(repos, NoCommits);
  }

  function DetailOf(r: Repo): LateDetail {
    LateDetail(r.login, LateTimestamps(r))
  }

  function Details(rs: seq<Repo>): (ds: seq<LateDetail>)
    ensures |ds| == |rs|
  {
    seq(|rs|, k requires 0 <= k < |rs| => DetailOf(rs[k]))
  }

  /** Every late repository has at least one late date to show. */
  lemma DetailsNonEmpty(repos: seq<Repo>)
    ensures var ds := Details(Filter(repos, AnyLate));
            forall k :: 0 <= k < |ds| ==> ds[k].timestamps != {}
  {
    var rs := Filter(repos, AnyLate);
    forall k | 0 <= k < |rs| ensures Details(rs)[k].timestamps != {} {
      assert rs[k] in rs;
      assert Details(rs)[k] == DetailOf(rs[k]);
    }
  }

  /** Appending one repository appends its detail: its login and the dates of
      its late commits. */
  lemma DetailsAppend(rs: seq<Repo>, r: Repo, d: LateDetail)
    requires d == LateDetail(r.login, Dates(Filter(r.commits, IsLateCommit)))
    ensures Details(rs + [r]) == Details(rs) + [d]
  {
    var a, b := Details(rs + [r]), Details(rs) + [d];
    forall k | 0 <= k < |a| ensures a[k] == b[k] {
      if k < |rs| {
        assert (rs + [r])[k] == rs[k];
      }
    }
  }

  /** A repository has a late commit exactly when filtering its commits for
      lateness leaves something. */
  lemma LateCommitsExist(r: Repo)
    ensures Filter(r.commits, IsLateCommit) != [] <==> AnyLate(r)
  {
    var late := Filter(r.commits, IsLateCommit);
    if late != [] {
      assert late[0] in late;
    }
  }

  /** One iteration of the second loop of `print_late_commits`: repository
      `i` adds its detail exactly when it has a late commit. */
  lemma LateDetailsStep(repos: seq<Repo>, i: nat)
    requires i < |repos|
    ensures var late := Filter(repos[i].commits, IsLateCommit);
            Details(Filter(repos[..i + 1], AnyLate)) ==
            Details(Filter(repos[..i], AnyLate)) +
              (if late != [] then [LateDetail(repos[i].login, Dates(late))] else [])
  {
    var r := repos[i];
    var before := Filter(repos[..i], AnyLate);
    FilterSnoc(repos, i, AnyLate);
    LateCommitsExist(r);
    var late := Filter(r.commits, IsLateCommit);
    if late != [] {
      DetailsAppend(before, r, LateDetail(r.login, Dates(late)));
    } else {
      assert before + [] == before;
    }
  }

  /** The second loop of `print_late_commits(repos)`: for each repository with
      a late commit, in input order, its login and the set of its late dates. */
  method LateDetails(repos: seq<Repo>) returns (details: seq<LateDetail>)
    ensures details == Details(Filter(repos, AnyLate))
    ensures forall k :: 0 <= k < |details| ==> details[k].timestamps != {}
  {
    details := [];
    for i := 0 to |repos|
      invariant details == Details(Filter(repos[..i], AnyLate))
    {
      LateDetailsStep(repos, i);
      var r := repos[i];
      var late := Filter(r.commits, IsLateCommit);
      if late != [] {
        details := details + [LateDetail(r.login, Dates(late))];
      } else {
        assert details + [] == details;
      }
    }
    assert repos[..|repos|] == repos;
    DetailsNonEmpty(repos);
  }
}

/** The repository records the script receives from GitHub's GraphQL API, and
    the selections it makes over them: the template ("master") repository, the
    repositories generated from it, and, before collating, the repositories
    with commits ordered by author. */
module Repos {
  import opened Wrappers
  import opened Strings
  import opened Seqs
  import opened Sorting

  /** A node of a repository's commit history, with the fields the script reads. */
  datatype Commit = Commit(oid: string, authorEmail: string, authorDate: string)

  /** One repository node. `login`, `author` and `commits` are the keys that
      `annotate_repos` adds; before that they hold whatever the record had. */
  datatype Repo = Repo(
    name: string,
    nameWithOwner: string,
    readme: Option<string>,              // text of master:README.md; None when the blob is absent
    templateRepository: Option<string>,  // nameWithOwner of the template; None when there is none
    history: seq<Commit>,                // the nodes of the master branch's history edges
    login: string,
    author: string,
    commits: seq<Commit>)

  /** `next(r for r in repos if r["nameWithOwner"] == nameWithOwner)`: the first
      repository with that full name; None where Python raises StopIteration. */
  function FindMaster(repos: seq<Repo>, nameWithOwner: string): (r: Option<Repo>)
    ensures r.Some? ==> exists i :: 0 <= i < |repos| && repos[i] == r.value &&
                                    repos[i].nameWithOwner == nameWithOwner &&
                                    forall j :: 0 <= j < i ==> repos[j].nameWithOwner != nameWithOwner
    ensures r.None? <==> forall i :: 0 <= i < |repos| ==> repos[i].nameWithOwner != nameWithOwner
  {
    if |repos| == 0 then None
    else if repos[0].nameWithOwner == nameWithOwner then Some(repos[0])
    else
      var r := FindMaster(repos[1..], nameWithOwner);
      assert forall i :: 1 <= i < |repos| ==> repos[i] == repos[1..][i - 1];
      r
  }

  /** The repositories generated from the template `nameWithOwner`, in API order. */
  function Forks(repos: seq<Repo>, nameWithOwner: string): (forks: seq<Repo>)
    ensures forall r :: r in forks <==> r in repos && r.templateRepository == Some(nameWithOwner)
  {
    Filter(repos, (r: Repo) => r.templateRepository == Some(nameWithOwner))
  }

  /** `get_generated_repos` after its paging loop: the template and the
      repositories generated from it, or None when the template is missing. */
  function GeneratedRepos(repos: seq<Repo>, nameWithOwner: string): (r: Option<(Repo, seq<Repo>)>)
    ensures r.Some? <==> exists i :: 0 <= i < |repos| && repos[i].nameWithOwner == nameWithOwner
    ensures r.Some? ==> r.value.0 in repos && r.value.0.nameWithOwner == nameWithOwner &&
                        (forall f :: f in r.value.1 <==> f in repos && f.templateRepository == Some(nameWithOwner))
  {
    match FindMaster(repos, nameWithOwner)
    case None => None
    case Some(master) => Some((master, Forks(repos, nameWithOwner)))
  }

  predicate HasCommits(r: Repo) {
    r.commits != []
  }

  function AuthorKey(r: Repo): string {
    r.author
  }

  /** `repos.sort(key=lambda r: r["author"])`: the list reordered by author,
      repositories with equal authors keeping their order. */
  method SortByAuthor(repos: seq<Repo>) returns (out: seq<Repo>)
    ensures out == SortBy(repos, AuthorKey)
    ensures SortedBy(out, AuthorKey)
    ensures multiset(out) == multiset(repos)
    ensures forall k :: WithKey(out, AuthorKey, k) == WithKey(repos, AuthorKey, k)
  {
    out := [];
    for i := 0 to |repos|
      invariant out == SortBy(repos[..i], AuthorKey)
    {
      var x := repos[i];
      var j := 0;
      while j < |out| && !Less(x.author, out[j].author)
        invariant j <= |out|
        invariant forall m :: 0 <= m < j ==> !Less(x.author, out[m].author)
      {
        j := j + 1;
      }
      InsertAt(out, x, AuthorKey, j);
      assert repos[..i + 1][..i] == repos[..i];
      out := out[..j] + [x] + out[j..];
    }
    assert repos[..|repos|] == repos;
    SortBySorted(repos, AuthorKey);
    SortByPermutes(repos, AuthorKey);
    forall k ensures WithKey(out, AuthorKey, k) == WithKey(repos, AuthorKey, k) {
      SortByStable(repos, AuthorKey, k);
    }
  }

  /** The two lines of `main` between annotating and printing: keep the
      repositories with commits, then sort that list by author. */
  method SelectForCollation(repos: seq<Repo>) returns (out: seq<Repo>)
    ensures out == SortBy(Filter(repos, HasCommits), AuthorKey)
    ensures forall r :: r in out <==> r in repos && r.commits != []
    ensures SortedBy(out, AuthorKey)
  {
    var kept := [];
    for i := 0 to |repos|
      invariant kept == Filter(repos[..i], HasCommits)
    {
      FilterSnoc(repos, i, HasCommits);
      if repos[i].commits != [] {
        kept := kept + [repos[i]];
      }
    }
    assert repos[..|repos|] == repos;
    out := SortByAuthor(kept);
    forall r ensures r in out <==> r in kept {
      assert r in out <==> r in multiset(out);
    }
  }
}

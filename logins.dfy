/** Deriving each student's login from the generated repositories' names:
    `longest_prefix` and `annotate_repos`. */
module Logins {
  import opened Wrappers
  import opened Strings
  import opened Seqs
  import opened Repos

  /** Commits by this author are the template's own and are not the student's. */
  const InstructorEmail := "christian@nyu.edu"

  /** `min(len(s) for s in names)`. */
  function MinLength(names: seq<string>): (m: nat)
    requires |names| > 0
    ensures forall i :: 0 <= i < |names| ==> m <= |names[i]|
    ensures exists i :: 0 <= i < |names| && m == |names[i]|
  {
    if |names| == 1 then |names[0]|
    else
      var m := MinLength(names[1..]);
      assert forall i :: 1 <= i < |names| ==> names[i] == names[1..][i - 1];
      if |names[0]| <= m then |names[0]| else m
  }

  /** `{s[:n] for s in names}`. */
  function Prefixes(names: seq<string>, n: nat): set<string>
    requires |names| > 0 && n <= MinLength(names)
  {
    set s | s in names :: s[..n]
  }

  /** Every name is at least `n` long and they all agree on their first `n` characters. */
  ghost predicate SharePrefix(names: seq<string>, n: nat)
    requires |names| > 0
  {
    n <= |names[0]| &&
    forall i :: 0 <= i < |names| ==> n <= |names[i]| && names[i][..n] == names[0][..n]
  }

  /** The set of length-`n` prefixes has one element exactly when all names share it. */
  lemma PrefixesSingleton(names: seq<string>, n: nat)
    requires |names| > 0 && n <= MinLength(names)
    ensures |Prefixes(names, n)| == 1 <==> SharePrefix(names, n)
  {
    var ps, p := Prefixes(names, n), names[0][..n];
    assert p in ps by { assert names[0] in names; }
    if SharePrefix(names, n) {
      forall x | x in ps ensures x == p {
        var s :| s in names && x == s[..n];
        var i :| 0 <= i < |names| && names[i] == s;
      }
      assert ps == {p};
    } else {
      var i :| 0 <= i < |names| && names[i][..n] != p;
      var q := names[i][..n];
      assert q in ps by { assert names[i] in names; }
      var rest := ps - {p};
      assert q in rest;
      assert |rest| == |ps| - 1;
    }
  }

  /** The generator of `longest_prefix`, taken from length `n` downwards. */
  function SearchPrefix(names: seq<string>, n: nat): (r: Option<string>)
    requires |names| > 0 && n <= MinLength(names)
    ensures r.Some? ==> 1 <= |r.value| <= n && SharePrefix(names, |r.value|) &&
                        r.value == names[0][..|r.value|]
    ensures forall m :: (if r.Some? then |r.value| else 0) < m <= n ==> !SharePrefix(names, m)
    decreases n
  {
    if n == 0 then None
    else
      PrefixesSingleton(names, n);
      if |Prefixes(names, n)| == 1 then Some(names[0][..n]) else SearchPrefix(names, n - 1)
  }

  /** `longest_prefix(names)`: the longest non-empty common prefix of the names;
      None where Python raises (no names, an empty name, or differing first characters). */
  function LongestPrefix(names: seq<string>): (r: Option<string>)
    ensures r.Some? <==> |names| > 0 && SharePrefix(names, 1)
    ensures r.Some? ==> |r.value| >= 1 && forall i :: 0 <= i < |names| ==> StartsWith(names[i], r.value)
  {
    if |names| == 0 then None
    else
      var r := SearchPrefix(names, MinLength(names));
      assert SharePrefix(names, 1) ==> 1 <= MinLength(names);
      assert r.Some? ==> forall i :: 0 <= i < |names| ==> StartsWith(names[i], r.value);
      r
  }

  /** No common prefix of all the names is longer than the one `LongestPrefix` picks:
      every common prefix is a prefix of it. */
  lemma LongestPrefixIsLongest(names: seq<string>, q: string)
    requires LongestPrefix(names).Some?
    requires forall i :: 0 <= i < |names| ==> StartsWith(names[i], q)
    ensures StartsWith(LongestPrefix(names).value, q)
  {
    var p := LongestPrefix(names).value;
    var m := MinLength(names);
    var k :| 0 <= k < |names| && m == |names[k]|;
    assert |q| <= m;
    if |q| > |p| {
      assert SharePrefix(names, |q|);
      assert false;
    }
    assert names[0][..|p|] == p && names[0][..|q|] == q;
    assert p[..|q|] == names[0][..|q|];
  }

  /** `[c["node"] for c in edges if c["node"]["author"]["email"] != "christian@nyu.edu"]`. */
  function StudentCommits(history: seq<Commit>): (cs: seq<Commit>)
    ensures forall c :: c in cs <==> c in history && c.authorEmail != InstructorEmail
    ensures |cs| <= |history|
  {
    Filter(history, (c: Commit) => c.authorEmail != InstructorEmail)
  }

  /** `[r["name"] for r in repos]`. */
  function Names(repos: seq<Repo>): (names: seq<string>)
    ensures |names| == |repos|
    ensures forall i :: 0 <= i < |repos| ==> names[i] == repos[i].name
  {
    seq(|repos|, i requires 0 <= i < |repos| => repos[i].name)
  }

  /** `r` is `o` annotated under the common prefix `prefix`: the name is the
      prefix followed by the login, the author is the roster's name for the
      login (the login itself when the roster lacks it), the commits are the
      history's commits not by the instructor, and no other field differs. */
  ghost predicate Annotated(o: Repo, r: Repo, prefix: string, roster: map<string, string>) {
    prefix + r.login == o.name &&
    r.author == (if r.login in roster then roster[r.login] else r.login) &&
    r.commits == StudentCommits(o.history) &&
    r == o.(login := r.login, author := r.author, commits := r.commits)
  }

  /** The loop body of `annotate_repos` for one repository whose name starts
      with the common prefix. */
  function Annotate(o: Repo, prefix: string, roster: map<string, string>): (r: Repo)
    requires StartsWith(o.name, prefix)
    ensures Annotated(o, r, prefix, roster)
  {
    var login := o.name[|prefix|..];
    assert prefix + login == o.name;
    var author := if login in roster then roster[login] else login;
    o.(login := login, author := author, commits := StudentCommits(o.history))
  }

  /** `annotate_repos(repos, roster)`: sets each repository's login (its name
      without the common prefix), its author (the roster's name for the login,
      else the login) and its commits (those not by the instructor), in place.
      Returns the common prefix; None, with nothing changed, where
      `longest_prefix` raises. */
  method AnnotateRepos(repos: array<Repo>, roster: map<string, string>) returns (prefix: Option<string>)
    modifies repos
    ensures prefix == LongestPrefix(Names(old(repos[..])))
    ensures prefix.None? ==> repos[..] == old(repos[..])
    ensures prefix.Some? ==> forall i :: 0 <= i < repos.Length ==>
              Annotated(old(repos[i]), repos[i], prefix.value, roster)
  {
    var names := Names(repos[..]);
    prefix := LongestPrefix(names);
    if prefix.None? {
      return;
    }
    var p := prefix.value;
    ghost var before := repos[..];
    assert forall j :: 0 <= j < repos.Length ==> StartsWith(before[j].name, p) by {
      forall j | 0 <= j < repos.Length ensures StartsWith(before[j].name, p) {
        assert names[j] == before[j].name;
      }
    }
    for i := 0 to repos.Length
      invariant forall j :: i <= j < repos.Length ==> repos[j] == before[j]
      invariant forall j :: 0 <= j < i ==> repos[j] == Annotate(before[j], p, roster)
    {
      repos[i] := Annotate(repos[i], p, roster);
    }
    forall i | 0 <= i < repos.Length
      ensures Annotated(old(repos[i]), repos[i], p, roster)
    {
      assert old(repos[i]) == before[i];
      assert repos[i] == Annotate(before[i], p, roster);
    }
  }
}

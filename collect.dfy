/**
  Collecting commits in src/code_recap/generate_blog_post.py:
  `gather_commits_for_period` (every commit of a period, once per full SHA),
  `find_repo_by_name`, and `retrieve_referenced_commits` (the commits a
  research file refers to, once per SHA prefix). The git and filesystem
  queries are parameters:
    - `commitsOf(path)` is `get_commits_with_diffs(path, since, until, author, max_diff_lines)`
      for the period, author and diff limit of the call;
    - `submodulesOf(path)` is `discover_all_submodules(path)`;
    - `topLevel(root)` is `discover_top_level_repos(root)`;
    - `isDir(path)` is `os.path.isdir(path)`;
    - `runGit` is `run_git`, through `GitShow.ShowCommit`.
*/
module Collect {
  import opened Wrappers
  import opened Text
  import opened GitShow
  import opened KeyedDedup

  /** `(repo_name, commit)`, what both collectors return. */
  type Entry = (string, CommitInfo)

  function EntrySha(e: Entry): string { e.1.sha }

  /** Each commit tagged with the name of the repository it came from. */
  function Tagged(name: string, cs: seq<CommitInfo>): (r: seq<Entry>)
    ensures |r| == |cs| && forall k :: 0 <= k < |cs| ==> r[k] == (name, cs[k])
  {
    seq(|cs|, k requires 0 <= k < |cs| => (name, cs[k]))
  }

  lemma TaggedSnoc(name: string, cs: seq<CommitInfo>, j: nat)
    requires j < |cs|
    ensures Tagged(name, cs[..j + 1]) == Tagged(name, cs[..j]) + [(name, cs[j])]
  {
  }

  // ---------------------------------------------------------------------------
  // gather_commits_for_period

  /** The commits of the submodules, submodule by submodule. */
  function SubmoduleCandidates(subs: seq<string>, commitsOf: string -> seq<CommitInfo>): seq<Entry>
  {
    if |subs| == 0 then []
    else
      var last := subs[|subs| - 1];
      SubmoduleCandidates(subs[..|subs| - 1], commitsOf) + Tagged(Basename(last), commitsOf(last))
  }

  /** One repository's candidates: its own commits, then those of its submodules. */
  function RepoCandidates(repo: string, commitsOf: string -> seq<CommitInfo>,
                          submodulesOf: string -> seq<string>): seq<Entry>
  {
    Tagged(Basename(repo), commitsOf(repo)) + SubmoduleCandidates(submodulesOf(repo), commitsOf)
  }

  /** Every candidate in the order the loops visit them. */
  function Candidates(repos: seq<string>, commitsOf: string -> seq<CommitInfo>,
                      submodulesOf: string -> seq<string>): seq<Entry>
  {
    if |repos| == 0 then []
    else
      Candidates(repos[..|repos| - 1], commitsOf, submodulesOf)
      + RepoCandidates(repos[|repos| - 1], commitsOf, submodulesOf)
  }

  /**
    `gather_commits_for_period`: the candidates in visiting order, each kept
    only when its full SHA was not seen before.
  */
  method GatherCommitsForPeriod(repos: seq<string>, commitsOf: string -> seq<CommitInfo>,
                                submodulesOf: string -> seq<string>) returns (allCommits: seq<Entry>)
    ensures allCommits == Dedup(Candidates(repos, commitsOf, submodulesOf), EntrySha)
  {
    allCommits := [];
    var seen: set<string> := {};
    for i := 0 to |repos|
      invariant allCommits == Dedup(Candidates(repos[..i], commitsOf, submodulesOf), EntrySha)
      invariant seen == Keys(Candidates(repos[..i], commitsOf, submodulesOf), EntrySha)
    {
      var repoPath := repos[i];
      ghost var before := Candidates(repos[..i], commitsOf, submodulesOf);
      CandidatesSnoc(repos, i, commitsOf, submodulesOf);
      allCommits, seen := AbsorbCommits(allCommits, seen, Basename(repoPath), commitsOf(repoPath), before);
      ghost var mid := before + Tagged(Basename(repoPath), commitsOf(repoPath));
      allCommits, seen := AbsorbSubmodules(allCommits, seen, submodulesOf(repoPath), commitsOf, mid);
    }
    assert repos[..|repos|] == repos;
  }

  lemma CandidatesSnoc(repos: seq<string>, i: nat, commitsOf: string -> seq<CommitInfo>,
                       submodulesOf: string -> seq<string>)
    requires i < |repos|
    ensures Candidates(repos[..i + 1], commitsOf, submodulesOf)
            == Candidates(repos[..i], commitsOf, submodulesOf) + Tagged(Basename(repos[i]), commitsOf(repos[i]))
               + SubmoduleCandidates(submodulesOf(repos[i]), commitsOf)
  {
    assert repos[..i + 1][..i] == repos[..i];
  }

  /** The candidates of one more submodule follow those of the submodules before it. */
  lemma SubmoduleStep(done: seq<Entry>, subs: seq<string>, k: nat, commitsOf: string -> seq<CommitInfo>)
    requires k < |subs|
    ensures done + SubmoduleCandidates(subs[..k + 1], commitsOf)
            == (done + SubmoduleCandidates(subs[..k], commitsOf)) + Tagged(Basename(subs[k]), commitsOf(subs[k]))
  {
    assert subs[..k + 1][..k] == subs[..k];
  }

  /** The loop over a repository's submodules, each one's commits in turn. */
  method AbsorbSubmodules(allCommits: seq<Entry>, seen: set<string>, subs: seq<string>,
                          commitsOf: string -> seq<CommitInfo>, ghost done: seq<Entry>)
    returns (allCommits': seq<Entry>, seen': set<string>)
    requires allCommits == Dedup(done, EntrySha) && seen == Keys(done, EntrySha)
    ensures allCommits' == Dedup(done + SubmoduleCandidates(subs, commitsOf), EntrySha)
    ensures seen' == Keys(done + SubmoduleCandidates(subs, commitsOf), EntrySha)
  {
    allCommits', seen' := allCommits, seen;
    assert done + SubmoduleCandidates(subs[..0], commitsOf) == done;
    for k := 0 to |subs|
      invariant allCommits' == Dedup(done + SubmoduleCandidates(subs[..k], commitsOf), EntrySha)
      invariant seen' == Keys(done + SubmoduleCandidates(subs[..k], commitsOf), EntrySha)
    {
      var subPath := subs[k];
      ghost var sofar := done + SubmoduleCandidates(subs[..k], commitsOf);
      SubmoduleStep(done, subs, k, commitsOf);
      allCommits', seen' := AbsorbCommits(allCommits', seen', Basename(subPath), commitsOf(subPath), sofar);
    }
    assert subs[..|subs|] == subs;
  }

  /** The loop over one repository's commits, appending those whose SHA is new and recording their SHAs. */
  method AbsorbCommits(allCommits: seq<Entry>, seen: set<string>, name: string, commits: seq<CommitInfo>,
                       ghost done: seq<Entry>) returns (allCommits': seq<Entry>, seen': set<string>)
    requires allCommits == Dedup(done, EntrySha) && seen == Keys(done, EntrySha)
    ensures allCommits' == Dedup(done + Tagged(name, commits), EntrySha)
    ensures seen' == Keys(done + Tagged(name, commits), EntrySha)
  {
    allCommits', seen' := allCommits, seen;
    assert done + Tagged(name, commits[..0]) == done;
    for j := 0 to |commits|
      invariant allCommits' == Dedup(done + Tagged(name, commits[..j]), EntrySha)
      invariant seen' == Keys(done + Tagged(name, commits[..j]), EntrySha)
    {
      var c := commits[j];
      AbsorbStep(done, name, commits, j);
      if c.sha !in seen' {
        seen' := seen' + {c.sha};
        allCommits' := allCommits' + [(name, c)];
      }
    }
    assert commits[..|commits|] == commits;
  }

  /** One commit more: the seen-set walk over the longer prefix. */
  lemma AbsorbStep(done: seq<Entry>, name: string, commits: seq<CommitInfo>, j: nat)
    requires j < |commits|
    ensures var sofar := done + Tagged(name, commits[..j]);
            var next := done + Tagged(name, commits[..j + 1]);
            var x := (name, commits[j]);
            Dedup(next, EntrySha) == (if commits[j].sha in Keys(sofar, EntrySha) then Dedup(sofar, EntrySha)
                                      else Dedup(sofar, EntrySha) + [x])
            && Keys(next, EntrySha) == Keys(sofar, EntrySha) + {commits[j].sha}
  {
    var sofar := done + Tagged(name, commits[..j]);
    TaggedSnoc(name, commits, j);
    assert done + Tagged(name, commits[..j + 1]) == sofar + [(name, commits[j])];
    DedupSnoc(sofar, (name, commits[j]), EntrySha);
  }

  /**
    What `gather_commits_for_period` returns: no two entries share a SHA,
    every SHA of every candidate is there, and the entries are the first
    candidate of each SHA, in visiting order (so a repository's own commits
    come before its submodules', and earlier repositories before later ones).
  */
  lemma GatherProperties(repos: seq<string>, commitsOf: string -> seq<CommitInfo>,
                         submodulesOf: string -> seq<string>)
    ensures var cands := Candidates(repos, commitsOf, submodulesOf);
            var r := Dedup(cands, EntrySha);
            var ps := Kept(cands, EntrySha);
            (forall i, j :: 0 <= i < j < |r| ==> r[i].1.sha != r[j].1.sha)
            && Keys(r, EntrySha) == Keys(cands, EntrySha)
            && |ps| == |r|
            && (forall i :: 0 <= i < |ps| ==> ps[i] < |cands| && r[i] == cands[ps[i]] && FirstOfKey(cands, EntrySha, ps[i]))
            && (forall i, j :: 0 <= i < j < |ps| ==> ps[i] < ps[j])
  {
    var cands := Candidates(repos, commitsOf, submodulesOf);
    DedupDistinct(cands, EntrySha);
    DedupIsFirstOccurrences(cands, EntrySha);
  }

  // ---------------------------------------------------------------------------
  // find_repo_by_name

  /** `os.path.join(root, name)`: an absolute `name` replaces `root`; otherwise one `/` goes between them. */
  function PathJoin(root: string, name: string): (r: string)
    ensures |name| > 0 && name[0] == '/' ==> r == name
    ensures !(|name| > 0 && name[0] == '/') ==> r == root + name || r == root + "/" + name
    ensures |name| > 0 ==> |r| > 0
  {
    if |name| > 0 && name[0] == '/' then name
    else if root == "" || root[|root| - 1] == '/' then root + name
    else root + "/" + name
  }

  /** The last path component equals `name`, ignoring ASCII case. */
  predicate NamedAs(path: string, name: string)
  {
    Lower(Basename(path)) == Lower(name)
  }

  /** The paths the search visits: each repository followed by its submodules. */
  function SearchOrder(repos: seq<string>, submodulesOf: string -> seq<string>): seq<string>
  {
    if |repos| == 0 then [] else [repos[0]] + submodulesOf(repos[0]) + SearchOrder(repos[1..], submodulesOf)
  }

  /** The first path named `name`. */
  function FirstNamed(paths: seq<string>, name: string): (r: Option<string>)
    ensures r.Some? ==> r.value in paths && NamedAs(r.value, name)
    ensures r.None? <==> forall k :: 0 <= k < |paths| ==> !NamedAs(paths[k], name)
  {
    if |paths| == 0 then None
    else if NamedAs(paths[0], name) then Some(paths[0])
    else FirstNamed(paths[1..], name)
  }

  /** `find_repo_by_name`: the direct child if it is a directory, else the first repository or submodule with that name. */
  function FindRepo(root: string, name: string, isDir: string -> bool, topLevel: string -> seq<string>,
                    submodulesOf: string -> seq<string>): Option<string>
  {
    var direct := PathJoin(root, name);
    if isDir(direct) then Some(direct) else FirstNamed(SearchOrder(topLevel(root), submodulesOf), name)
  }

  lemma FirstNamedCons(p: string, rest: seq<string>, name: string)
    ensures FirstNamed([p] + rest, name) == if NamedAs(p, name) then Some(p) else FirstNamed(rest, name)
  {
    assert ([p] + rest)[0] == p && ([p] + rest)[1..] == rest;
  }

  /** The search order from repository `i` on: the repository, its submodules, then the rest. */
  lemma OrderStep(repos: seq<string>, i: nat, submodulesOf: string -> seq<string>, name: string)
    requires i < |repos|
    ensures FirstNamed(SearchOrder(repos[i..], submodulesOf), name)
            == if NamedAs(repos[i], name) then Some(repos[i])
               else FirstNamed(submodulesOf(repos[i]) + SearchOrder(repos[i + 1..], submodulesOf), name)
  {
    assert repos[i..][0] == repos[i] && repos[i..][1..] == repos[i + 1..];
    var rest := SearchOrder(repos[i + 1..], submodulesOf);
    assert SearchOrder(repos[i..], submodulesOf) == [repos[i]] + (submodulesOf(repos[i]) + rest);
    FirstNamedCons(repos[i], submodulesOf(repos[i]) + rest, name);
  }

  /** The submodules from `k` on, then the rest of the order: submodule `k` first. */
  lemma SubsStep(subs: seq<string>, k: nat, rest: seq<string>, name: string)
    requires k < |subs|
    ensures FirstNamed(subs[k..] + rest, name)
            == if NamedAs(subs[k], name) then Some(subs[k]) else FirstNamed(subs[k + 1..] + rest, name)
  {
    assert subs[k..] + rest == [subs[k]] + (subs[k + 1..] + rest);
    FirstNamedCons(subs[k], subs[k + 1..] + rest, name);
  }

  /** `find_repo_by_name` with its two loops and early returns. */
  method FindRepoByName(root: string, name: string, isDir: string -> bool, topLevel: string -> seq<string>,
                        submodulesOf: string -> seq<string>) returns (r: Option<string>)
    ensures r == FindRepo(root, name, isDir, topLevel, submodulesOf)
  {
    var directPath := PathJoin(root, name);
    if isDir(directPath) {
      return Some(directPath);
    }
    var repos := topLevel(root);
    ghost var target := FirstNamed(SearchOrder(repos, submodulesOf), name);
    assert repos[0..] == repos;
    for i := 0 to |repos|
      invariant target == FirstNamed(SearchOrder(repos[i..], submodulesOf), name)
    {
      var repoPath := repos[i];
      var subs := submodulesOf(repoPath);
      ghost var rest := SearchOrder(repos[i + 1..], submodulesOf);
      OrderStep(repos, i, submodulesOf, name);
      if Lower(Basename(repoPath)) == Lower(name) {
        return Some(repoPath);
      }
      assert subs[0..] == subs;
      for k := 0 to |subs|
        invariant target == FirstNamed(subs[k..] + rest, name)
      {
        var subPath := subs[k];
        SubsStep(subs, k, rest, name);
        if Lower(Basename(subPath)) == Lower(name) {
          return Some(subPath);
        }
      }
      assert subs[|subs|..] + rest == rest;
    }
    assert repos[|repos|..] == [];
    return None;
  }

  /**
    The repository found is the directory `root/name`, or else a repository
    or submodule with that name (ignoring case) that no earlier one in the
    search order shares; none is found only when nothing in the search order
    has the name.
  */
  lemma FindRepoSpec(root: string, name: string, isDir: string -> bool, topLevel: string -> seq<string>,
                     submodulesOf: string -> seq<string>)
    ensures isDir(PathJoin(root, name)) ==>
              FindRepo(root, name, isDir, topLevel, submodulesOf) == Some(PathJoin(root, name))
    ensures !isDir(PathJoin(root, name)) ==>
              FoundFirstNamed(SearchOrder(topLevel(root), submodulesOf), name,
                              FindRepo(root, name, isDir, topLevel, submodulesOf))
  {
    var order := SearchOrder(topLevel(root), submodulesOf);
    var r := FindRepo(root, name, isDir, topLevel, submodulesOf);
    if !isDir(PathJoin(root, name)) {
      assert r == FirstNamed(order, name);
      if r.Some? {
        FirstNamedIsFirst(order, name);
      }
    }
  }

  /**
    `r` is the path at a position holding the first path named `name`, and
    it is `None` exactly when no path has that name.
  */
  ghost predicate FoundFirstNamed(order: seq<string>, name: string, r: Option<string>)
  {
    (r.Some? ==> exists k :: FirstNamedAt(order, name, k) && r == Some(order[k]))
    && (r.None? <==> forall k :: 0 <= k < |order| ==> !NamedAs(order[k], name))
  }

  /** Position `k` holds the first path named `name`. */
  predicate FirstNamedAt(paths: seq<string>, name: string, k: int)
  {
    0 <= k < |paths| && NamedAs(paths[k], name) && forall j :: 0 <= j < k ==> !NamedAs(paths[j], name)
  }

  lemma {:induction false} FirstNamedIsFirst(paths: seq<string>, name: string)
    requires FirstNamed(paths, name).Some?
    ensures exists k :: FirstNamedAt(paths, name, k) && FirstNamed(paths, name) == Some(paths[k])
    decreases |paths|
  {
    if NamedAs(paths[0], name) {
      assert FirstNamedAt(paths, name, 0);
    } else {
      FirstNamedIsFirst(paths[1..], name);
      var k :| FirstNamedAt(paths[1..], name, k) && FirstNamed(paths[1..], name) == Some(paths[1..][k]);
      assert paths[k + 1] == paths[1..][k];
      forall j | 0 <= j < k + 1 ensures !NamedAs(paths[j], name) {
        if j > 0 { assert paths[j] == paths[1..][j - 1]; }
      }
      assert FirstNamedAt(paths, name, k + 1);
    }
  }

  // ---------------------------------------------------------------------------
  // retrieve_referenced_commits

  /** A reference `(sha_prefix, repo_name)`. */
  type Ref = (string, string)

  function RefSha(r: Ref): string { r.0 }

  /** The first submodule that has the commit, as the inner loop with its `break` finds it. */
  function FirstSubmoduleHit(runGit: (string, seq<string>) -> GitOutput, maxDiffLines: int,
                             subs: seq<string>, sha: string): (r: seq<Entry>)
    ensures |r| <= 1
  {
    if |subs| == 0 then []
    else match ShowCommit(runGit, subs[0], sha, maxDiffLines)
      case Some(c) => [(Basename(subs[0]), c)]
      case None => FirstSubmoduleHit(runGit, maxDiffLines, subs[1..], sha)
  }

  /**
    The search over all repositories as written: a hit in a repository ends
    the search, but the `break` after a hit in a submodule ends only the
    submodule loop, so the search goes on with the next repository.
  */
  function SearchAsWritten(runGit: (string, seq<string>) -> GitOutput, maxDiffLines: int,
                           submodulesOf: string -> seq<string>, repos: seq<string>, sha: string): seq<Entry>
  {
    if |repos| == 0 then []
    else match ShowCommit(runGit, repos[0], sha, maxDiffLines)
      case Some(c) => [(Basename(repos[0]), c)]
      case None =>
        FirstSubmoduleHit(runGit, maxDiffLines, submodulesOf(repos[0]), sha)
        + SearchAsWritten(runGit, maxDiffLines, submodulesOf, repos[1..], sha)
  }

  /** The lookup environment of one call. */
  datatype Env = Env(
    root: string,
    runGit: (string, seq<string>) -> GitOutput,
    maxDiffLines: int,
    isDir: string -> bool,
    topLevel: string -> seq<string>,
    submodulesOf: string -> seq<string>)

  /** The repository a reference names, when it names one that is found (and is a non-empty path). */
  function NamedPath(env: Env, repoName: string): Option<string>
  {
    if repoName == "" then None
    else match FindRepo(env.root, repoName, env.isDir, env.topLevel, env.submodulesOf)
      case Some(p) => if p != "" then Some(p) else None
      case None => None
  }

  /** The commits one first-seen reference adds, as written. */
  function ResolveAsWritten(env: Env, ref: Ref): seq<Entry>
  {
    var named := NamedPath(env, ref.1);
    if named.Some? && ShowCommit(env.runGit, named.value, ref.0, env.maxDiffLines).Some? then
      [(ref.1, ShowCommit(env.runGit, named.value, ref.0, env.maxDiffLines).value)]
    else SearchAsWritten(env.runGit, env.maxDiffLines, env.submodulesOf, env.topLevel(env.root), ref.0)
  }

  function ResolveAllAsWritten(env: Env, refs: seq<Ref>): seq<Entry>
  {
    if |refs| == 0 then []
    else ResolveAllAsWritten(env, refs[..|refs| - 1]) + ResolveAsWritten(env, refs[|refs| - 1])
  }

  /** `metadata.root or os.path.dirname(os.getcwd())`, with the working directory's parent given. */
  function RootOf(metadataRoot: string, cwdParent: string): string
  {
    if metadataRoot != "" then metadataRoot else cwdParent
  }

  /**
    `retrieve_referenced_commits` as written: the metadata references, then
    those found in the text, each SHA prefix tried once, each one resolved in
    its named repository or else by the search over all repositories.
  */
  method RetrieveReferencedCommits(metadataRoot: string, metadataCommits: seq<Ref>, additionalRefs: seq<Ref>,
                                   cwdParent: string, maxDiffLines: int,
                                   runGit: (string, seq<string>) -> GitOutput, isDir: string -> bool,
                                   topLevel: string -> seq<string>, submodulesOf: string -> seq<string>)
    returns (results: seq<Entry>)
    ensures results == ResolveAllAsWritten(Env(RootOf(metadataRoot, cwdParent), runGit, maxDiffLines, isDir,
                                               topLevel, submodulesOf),
                                           Dedup(metadataCommits + additionalRefs, RefSha))
  {
    results := [];
    var seenShas: set<string> := {};
    var allRefs := metadataCommits + additionalRefs;
    var env := Env(RootOf(metadataRoot, cwdParent), runGit, maxDiffLines, isDir, topLevel, submodulesOf);
    RetrieveStart(env, allRefs);
    for i := 0 to |allRefs|
      invariant RetrievedUpTo(env, allRefs, i, results, seenShas)
    {
      ghost var results0, seen0 := results, seenShas;
      if allRefs[i].0 !in seenShas {
        seenShas := seenShas + {allRefs[i].0};
        results := ResolveReference(results, env, allRefs[i]);
      }
      RetrieveAdvance(env, allRefs, i, results0, seen0, results, seenShas);
    }
    RetrieveEnd(env, allRefs, results, seenShas);
  }

  /** The state of the retrieval loop after the first `i` references. */
  predicate RetrievedUpTo(env: Env, allRefs: seq<Ref>, i: nat, results: seq<Entry>, seen: set<string>)
    requires i <= |allRefs|
  {
    seen == Keys(allRefs[..i], RefSha) && results == ResolveAllAsWritten(env, Dedup(allRefs[..i], RefSha))
  }

  lemma RetrieveStart(env: Env, allRefs: seq<Ref>)
    ensures RetrievedUpTo(env, allRefs, 0, [], {})
  {
    assert allRefs[..0] == [];
  }

  lemma RetrieveEnd(env: Env, allRefs: seq<Ref>, results: seq<Entry>, seen: set<string>)
    requires RetrievedUpTo(env, allRefs, |allRefs|, results, seen)
    ensures results == ResolveAllAsWritten(env, Dedup(allRefs, RefSha))
  {
    assert allRefs[..|allRefs|] == allRefs;
  }

  /** The search loop of `retrieve_referenced_commits`, appending to `results`. */
  method SearchAllRepos(results: seq<Entry>, root: string, shaPrefix: string,
                        runGit: (string, seq<string>) -> GitOutput, maxDiffLines: int,
                        topLevel: string -> seq<string>, submodulesOf: string -> seq<string>)
    returns (results': seq<Entry>)
    ensures results' == results + SearchAsWritten(runGit, maxDiffLines, submodulesOf, topLevel(root), shaPrefix)
  {
    results' := results;
    var repos := topLevel(root);
    ghost var goal := results + SearchAsWritten(runGit, maxDiffLines, submodulesOf, repos, shaPrefix);
    assert repos[0..] == repos;
    var r := 0;
    while r < |repos|
      invariant 0 <= r <= |repos|
      invariant goal == results' + SearchAsWritten(runGit, maxDiffLines, submodulesOf, repos[r..], shaPrefix)
    {
      var repoPath := repos[r];
      SearchStep(runGit, maxDiffLines, submodulesOf, repos, r, shaPrefix);
      var commit := ShowCommit(runGit, repoPath, shaPrefix, maxDiffLines);
      if commit.Some? {
        return results' + [(Basename(repoPath), commit.value)];
      }
      ghost var before := results';
      results' := SearchSubmodules(results', submodulesOf(repoPath), shaPrefix, runGit, maxDiffLines);
      AppendAssoc(before, FirstSubmoduleHit(runGit, maxDiffLines, submodulesOf(repoPath), shaPrefix),
                  SearchAsWritten(runGit, maxDiffLines, submodulesOf, repos[r + 1..], shaPrefix));
      r := r + 1;
    }
    assert repos[r..] == [];
  }

  /** One pass of the retrieval loop: a new SHA prefix is resolved and recorded, a seen one changes nothing. */
  lemma RetrieveStep(env: Env, allRefs: seq<Ref>, i: nat)
    requires i < |allRefs|
    ensures Keys(allRefs[..i + 1], RefSha) == Keys(allRefs[..i], RefSha) + {allRefs[i].0}
    ensures allRefs[i].0 in Keys(allRefs[..i], RefSha) ==>
              Dedup(allRefs[..i + 1], RefSha) == Dedup(allRefs[..i], RefSha)
    ensures allRefs[i].0 !in Keys(allRefs[..i], RefSha) ==>
              ResolveAllAsWritten(env, Dedup(allRefs[..i + 1], RefSha))
              == ResolveAllAsWritten(env, Dedup(allRefs[..i], RefSha)) + ResolveAsWritten(env, allRefs[i])
  {
    DedupSnoc(allRefs[..i], allRefs[i], RefSha);
    assert allRefs[..i + 1] == allRefs[..i] + [allRefs[i]];
    ResolveAllSnoc(env, Dedup(allRefs[..i], RefSha), allRefs[i]);
  }

  lemma ResolveAllSnoc(env: Env, refs: seq<Ref>, ref: Ref)
    ensures ResolveAllAsWritten(env, refs + [ref]) == ResolveAllAsWritten(env, refs) + ResolveAsWritten(env, ref)
  {
    assert (refs + [ref])[..|refs|] == refs;
  }

  /** The retrieval loop's invariant carried over one reference, whether its SHA prefix was new or seen. */
  lemma RetrieveAdvance(env: Env, allRefs: seq<Ref>, i: nat, results: seq<Entry>, seen: set<string>,
                        results': seq<Entry>, seen': set<string>)
    requires i < |allRefs| && RetrievedUpTo(env, allRefs, i, results, seen)
    requires allRefs[i].0 in seen ==> results' == results && seen' == seen
    requires allRefs[i].0 !in seen ==>
               results' == results + ResolveAsWritten(env, allRefs[i]) && seen' == seen + {allRefs[i].0}
    ensures RetrievedUpTo(env, allRefs, i + 1, results', seen')
  {
    RetrieveStep(env, allRefs, i);
  }

  /** The body of the retrieval loop for a new SHA prefix: the named repository first, else the search. */
  method ResolveReference(results: seq<Entry>, env: Env, ref: Ref) returns (results': seq<Entry>)
    ensures results' == results + ResolveAsWritten(env, ref)
  {
    var shaPrefix := ref.0;
    var repoName := ref.1;
    if repoName != "" {
      var repoPath := FindRepoByName(env.root, repoName, env.isDir, env.topLevel, env.submodulesOf);
      if repoPath.Some? && repoPath.value != "" {
        var commit := ShowCommit(env.runGit, repoPath.value, shaPrefix, env.maxDiffLines);
        if commit.Some? {
          return results + [(repoName, commit.value)];
        }
      }
    }
    results' := SearchAllRepos(results, env.root, shaPrefix, env.runGit, env.maxDiffLines, env.topLevel, env.submodulesOf);
  }

  lemma AppendAssoc(a: seq<Entry>, b: seq<Entry>, c: seq<Entry>)
    ensures a + (b + c) == (a + b) + c
  {
  }

  /** The search from repository `r` on: a hit there ends it, otherwise its submodules' first hit and the rest. */
  lemma SearchStep(runGit: (string, seq<string>) -> GitOutput, maxDiffLines: int,
                   submodulesOf: string -> seq<string>, repos: seq<string>, r: nat, sha: string)
    requires r < |repos|
    ensures var c := ShowCommit(runGit, repos[r], sha, maxDiffLines);
            SearchAsWritten(runGit, maxDiffLines, submodulesOf, repos[r..], sha)
            == if c.Some? then [(Basename(repos[r]), c.value)]
               else FirstSubmoduleHit(runGit, maxDiffLines, submodulesOf(repos[r]), sha)
                    + SearchAsWritten(runGit, maxDiffLines, submodulesOf, repos[r + 1..], sha)
  {
    assert repos[r..][0] == repos[r] && repos[r..][1..] == repos[r + 1..];
  }

  /** The submodule loop of the search, with its `break` at the first hit. */
  method SearchSubmodules(results: seq<Entry>, subs: seq<string>, shaPrefix: string,
                          runGit: (string, seq<string>) -> GitOutput, maxDiffLines: int)
    returns (results': seq<Entry>)
    ensures results' == results + FirstSubmoduleHit(runGit, maxDiffLines, subs, shaPrefix)
  {
    results' := results;
    assert subs[0..] == subs;
    var s := 0;
    while s < |subs|
      invariant 0 <= s <= |subs|
      invariant FirstSubmoduleHit(runGit, maxDiffLines, subs, shaPrefix)
                == FirstSubmoduleHit(runGit, maxDiffLines, subs[s..], shaPrefix)
      decreases |subs| - s
    {
      var subPath := subs[s];
      FirstHitStep(runGit, maxDiffLines, subs, s, shaPrefix);
      var subCommit := ShowCommit(runGit, subPath, shaPrefix, maxDiffLines);
      if subCommit.Some? {
        results' := results' + [(Basename(subPath), subCommit.value)];
        return;
      }
      s := s + 1;
    }
    assert subs[s..] == [];
  }

  lemma FirstHitStep(runGit: (string, seq<string>) -> GitOutput, maxDiffLines: int,
                     subs: seq<string>, s: nat, sha: string)
    requires s < |subs|
    ensures var c := ShowCommit(runGit, subs[s], sha, maxDiffLines);
            FirstSubmoduleHit(runGit, maxDiffLines, subs[s..], sha)
            == if c.Some? then [(Basename(subs[s]), c.value)]
               else FirstSubmoduleHit(runGit, maxDiffLines, subs[s + 1..], sha)
  {
    assert subs[s..][0] == subs[s] && subs[s..][1..] == subs[s + 1..];
  }

  /** Each SHA prefix is tried once, metadata references first, in the order they are listed. */
  lemma RetrieveTriesEachPrefixOnce(refs: seq<Ref>)
    ensures var d := Dedup(refs, RefSha);
            (forall i, j :: 0 <= i < j < |d| ==> d[i].0 != d[j].0)
            && Keys(d, RefSha) == Keys(refs, RefSha)
            && |Kept(refs, RefSha)| == |d|
            && (forall i :: 0 <= i < |Kept(refs, RefSha)| ==>
                  Kept(refs, RefSha)[i] < |refs| && d[i] == refs[Kept(refs, RefSha)[i]] && FirstOfKey(refs, RefSha, Kept(refs, RefSha)[i]))
            && (forall i, j :: 0 <= i < j < |Kept(refs, RefSha)| ==> Kept(refs, RefSha)[i] < Kept(refs, RefSha)[j])
  {
    DedupDistinct(refs, RefSha);
    DedupIsFirstOccurrences(refs, RefSha);
  }

  // ---------------------------------------------------------------------------
  // the search as intended

  /** The search that stops at the first hit, in a repository or in one of its submodules. */
  function SearchIntended(runGit: (string, seq<string>) -> GitOutput, maxDiffLines: int,
                          submodulesOf: string -> seq<string>, repos: seq<string>, sha: string): (r: seq<Entry>)
    ensures |r| <= 1
  {
    if |repos| == 0 then []
    else match ShowCommit(runGit, repos[0], sha, maxDiffLines)
      case Some(c) => [(Basename(repos[0]), c)]
      case None =>
        var hit := FirstSubmoduleHit(runGit, maxDiffLines, submodulesOf(repos[0]), sha);
        if hit != [] then hit else SearchIntended(runGit, maxDiffLines, submodulesOf, repos[1..], sha)
  }

  /** The intended search finds exactly the first hit of the search as written, or nothing when it finds none. */
  lemma {:induction false} SearchIntendedIsFirstHit(runGit: (string, seq<string>) -> GitOutput, maxDiffLines: int,
                                                    submodulesOf: string -> seq<string>, repos: seq<string>, sha: string)
    ensures var w := SearchAsWritten(runGit, maxDiffLines, submodulesOf, repos, sha);
            SearchIntended(runGit, maxDiffLines, submodulesOf, repos, sha) == if w == [] then [] else [w[0]]
    decreases |repos|
  {
    if |repos| > 0 && ShowCommit(runGit, repos[0], sha, maxDiffLines).None? {
      SearchIntendedIsFirstHit(runGit, maxDiffLines, submodulesOf, repos[1..], sha);
    }
  }

  /** The commits one first-seen reference adds, as intended: at most one. */
  function ResolveIntended(env: Env, ref: Ref): (r: seq<Entry>)
    ensures |r| <= 1
  {
    var named := NamedPath(env, ref.1);
    if named.Some? && ShowCommit(env.runGit, named.value, ref.0, env.maxDiffLines).Some? then
      [(ref.1, ShowCommit(env.runGit, named.value, ref.0, env.maxDiffLines).value)]
    else SearchIntended(env.runGit, env.maxDiffLines, env.submodulesOf, env.topLevel(env.root), ref.0)
  }

  function ResolveAllIntended(env: Env, refs: seq<Ref>): seq<Entry>
  {
    if |refs| == 0 then []
    else ResolveAllIntended(env, refs[..|refs| - 1]) + ResolveIntended(env, refs[|refs| - 1])
  }

  /** As intended, there is at most one commit per distinct SHA prefix. */
  lemma {:induction false} RetrieveIntendedAtMostOne(env: Env, refs: seq<Ref>)
    ensures |ResolveAllIntended(env, Dedup(refs, RefSha))| <= |Dedup(refs, RefSha)| <= |Keys(refs, RefSha)|
  {
    AtMostOneEach(env, Dedup(refs, RefSha));
    DedupDistinct(refs, RefSha);
    DistinctKeysCount(Dedup(refs, RefSha));
  }

  lemma {:induction false} AtMostOneEach(env: Env, refs: seq<Ref>)
    ensures |ResolveAllIntended(env, refs)| <= |refs|
    decreases |refs|
  {
    if |refs| > 0 {
      AtMostOneEach(env, refs[..|refs| - 1]);
    }
  }

  lemma {:induction false} DistinctKeysCount(refs: seq<Ref>)
    requires forall i, j :: 0 <= i < j < |refs| ==> refs[i].0 != refs[j].0
    ensures |Keys(refs, RefSha)| == |refs|
    decreases |refs|
  {
    if |refs| > 0 {
      var init := refs[..|refs| - 1];
      var last := refs[|refs| - 1];
      DistinctKeysCount(init);
      DedupSnoc(init, last, RefSha);
      assert init + [last] == refs;
      assert last.0 !in Keys(init, RefSha) by {
        forall k | 0 <= k < |init| ensures init[k].0 != last.0 {
          assert init[k] == refs[k];
        }
      }
    }
  }

  /** A commit that two repositories' submodules both have. */
  const SharedHeader := Header("abc1234", "2024-01-02", "Ann", "Fix", "")

  /** git that knows the commit only in the two submodule checkouts. */
  function SharedGit(path: string, args: seq<string>): GitOutput
  {
    if path == "/r/a/lib" || path == "/r/b/lib" then GitOutput(0, FormatRecord(SharedHeader))
    else GitOutput(128, "")
  }

  function SharedSubmodules(path: string): seq<string>
  {
    if path == "/r/a" then ["/r/a/lib"] else if path == "/r/b" then ["/r/b/lib"] else []
  }

  function SharedTopLevel(root: string): seq<string> { ["/r/a", "/r/b"] }

  function NoDir(path: string): bool { false }

  /** The commit as `get_commit_by_sha` reads it back from either submodule. */
  function SharedCommit(): CommitInfo
  {
    var diff := TruncateDiff(GitOutput(0, FormatRecord(SharedHeader)), 500);
    CommitInfo("abc1234", "2024-01-02", "Ann", "Fix", "", diff)
  }

  /** Both submodules hold the commit. */
  lemma SharedShowHit(path: string)
    requires path == "/r/a/lib" || path == "/r/b/lib"
    ensures ShowCommit(SharedGit, path, "abc1234", 500) == Some(SharedCommit())
  {
    assert Strip("") == "";
    GetCommitRoundTrip(SharedHeader, "", GitOutput(0, FormatRecord(SharedHeader)), 500);
    assert FormatRecord(SharedHeader) + "" == FormatRecord(SharedHeader);
  }

  /** Neither top-level repository holds it. */
  lemma SharedShowMiss(path: string)
    requires path == "/r/a" || path == "/r/b"
    ensures ShowCommit(SharedGit, path, "abc1234", 500).None?
  {
  }

  /** Each repository's submodule search finds the commit in its `lib`. */
  lemma SharedSubmoduleHit(path: string)
    requires path == "/r/a/lib" || path == "/r/b/lib"
    ensures FirstSubmoduleHit(SharedGit, 500, [path], "abc1234") == [("lib", SharedCommit())]
  {
    SharedShowHit(path);
    BasenameShape(path);
    assert [path][1..] == [];
  }

  lemma SharedSearch()
    ensures SearchAsWritten(SharedGit, 500, SharedSubmodules, SharedTopLevel("/r"), "abc1234")
            == [("lib", SharedCommit()), ("lib", SharedCommit())]
  {
    SharedShowMiss("/r/a");
    SharedShowMiss("/r/b");
    SharedSubmoduleHit("/r/a/lib");
    SharedSubmoduleHit("/r/b/lib");
    assert ["/r/a", "/r/b"][1..] == ["/r/b"];
    assert ["/r/b"][1..] == [];
    assert SearchAsWritten(SharedGit, 500, SharedSubmodules, ["/r/b"], "abc1234") == [("lib", SharedCommit())];
  }

  /**
    The reference `abc1234` with no repository name, when the commit is in a
    submodule of each of two repositories: as written it is added twice, once
    per submodule; as intended, once.
  */
  lemma SharedSubmoduleCounterexample()
    ensures var env := Env("/r", SharedGit, 500, NoDir, SharedTopLevel, SharedSubmodules);
            var refs := [("abc1234", "")];
            |ResolveAllAsWritten(env, Dedup(refs, RefSha))| == 2
            && ResolveAllAsWritten(env, Dedup(refs, RefSha))[0].1 == ResolveAllAsWritten(env, Dedup(refs, RefSha))[1].1
            && |ResolveAllIntended(env, Dedup(refs, RefSha))| == 1
  {
    var env := Env("/r", SharedGit, 500, NoDir, SharedTopLevel, SharedSubmodules);
    var refs := [("abc1234", "")];
    assert refs[..0] == [];
    assert Keys(refs[..0], RefSha) == {};
    assert Dedup(refs, RefSha) == refs;
    SharedSearch();
    SearchIntendedIsFirstHit(SharedGit, 500, SharedSubmodules, SharedTopLevel("/r"), "abc1234");
    assert ResolveAllAsWritten(env, refs) == ResolveAsWritten(env, refs[0]);
    assert ResolveAllIntended(env, refs) == ResolveIntended(env, refs[0]);
  }
}

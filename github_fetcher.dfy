/** The record-shaping side of the GitHub commit fetcher: GraphQL commit nodes become commit
    records, cursor pages are concatenated, each organisation's repositories are fetched once
    into an in-memory memo, and a user's commits are collected across organisations without
    repeating a sha. The GraphQL client, the repository listing and the per-repository JSON
    files are inputs. */
module GithubFetcher {
  import opened Base
  import opened Grouping

  /** One commit as the fetcher stores it (github_fetcher.py's commit dict). */
  datatype Commit = Commit(
    sha: string,
    repository: string,
    author: string,
    date: string,
    message: string,
    additions: int,
    deletions: int,
    filesChanged: int)

  /** The `author` object of a node: `userLogin` is `author.user.login` (None when there is
      no user or no login), `name` is `author.name`. */
  datatype AuthorNode = AuthorNode(userLogin: Option<string>, name: Option<string>)

  /** A commit node of the history query. None stands for a key that is absent (or, for
      the author and the changed-file count, null). */
  datatype CommitNode = CommitNode(
    oid: string,
    committedDate: string,
    message: string,
    author: Option<AuthorNode>,
    additions: Option<int>,
    deletions: Option<int>,
    changedFiles: Option<int>)

  /** One response of the paged history query: a page of nodes, or a response without a
      repository, default branch or target (or a failed request), which ends the loop. */
  datatype Page = Page(nodes: seq<CommitNode>, hasNextPage: bool) | NoHistory

  /** The author login: the user's login if present and non-empty, else the author's name
      if non-empty, else "unknown". */
  function CommitAuthor(a: Option<AuthorNode>): (r: string)
    ensures r != ""
    ensures r == "unknown" || (a.Some? && (a.value.userLogin == Some(r) || a.value.name == Some(r)))
  {
    if a.Some? && Truthy(a.value.userLogin) then a.value.userLogin.value
    else if a.Some? && Truthy(a.value.name) then a.value.name.value
    else "unknown"
  }

  /** `f"{owner}/{repo_name}"`. */
  function RepoPath(owner: string, repo: string): string {
    owner + "/" + repo
  }

  function ValueOrZero(n: Option<int>): int {
    if n.Some? then n.value else 0
  }

  function ToCommit(node: CommitNode, owner: string, repo: string): Commit {
    Commit(node.oid, RepoPath(owner, repo), CommitAuthor(node.author), node.committedDate,
           node.message, ValueOrZero(node.additions), ValueOrZero(node.deletions),
           ValueOrZero(node.changedFiles))
  }

  function ToCommits(nodes: seq<CommitNode>, owner: string, repo: string): seq<Commit> {
    seq(|nodes|, i requires 0 <= i < |nodes| => ToCommit(nodes[i], owner, repo))
  }

  /** The nodes the cursor loop reads: each page's nodes up to and including the first page
      without a next page; a response without history contributes nothing and stops. */
  function ReadPages(pages: seq<Page>): seq<CommitNode> {
    ReadFrom(pages, 0)
  }

  /** The nodes read from the i-th response on. */
  function ReadFrom(pages: seq<Page>, i: nat): seq<CommitNode>
    decreases |pages| - i
  {
    if i >= |pages| || pages[i].NoHistory? then []
    else pages[i].nodes + (if pages[i].hasNextPage then ReadFrom(pages, i + 1) else [])
  }

  /** The nodes of pages i up to n, concatenated. */
  function ConcatRange(pages: seq<Page>, i: nat, n: nat): seq<CommitNode>
    requires n <= |pages|
    decreases n - i
  {
    if i >= n then []
    else (if pages[i].Page? then pages[i].nodes else []) + ConcatRange(pages, i + 1, n)
  }

  /** `_fetch_repo_commits_graphql` over the responses the client would give. */
  method FetchRepoCommits(owner: string, repo: string, pages: seq<Page>) returns (commits: seq<Commit>)
    ensures commits == ToCommits(ReadPages(pages), owner, repo)
  {
    commits := [];
    var i := 0;
    while i < |pages|
      invariant 0 <= i <= |pages|
      invariant ToCommits(ReadPages(pages), owner, repo) == commits + ToCommits(ReadFrom(pages, i), owner, repo)
      decreases |pages| - i
    {
      ReadFromStep(pages, i, commits, owner, repo);
      if pages[i].NoHistory? {
        return;
      }
      commits := commits + ToCommits(pages[i].nodes, owner, repo);
      if !pages[i].hasNextPage {
        return;
      }
      i := i + 1;
    }
  }

  /** One turn of the cursor loop, with `read` the commits already collected. */
  lemma ReadFromStep(pages: seq<Page>, i: nat, read: seq<Commit>, owner: string, repo: string)
    requires i < |pages|
    requires ToCommits(ReadPages(pages), owner, repo) == read + ToCommits(ReadFrom(pages, i), owner, repo)
    ensures pages[i].NoHistory? ==> ToCommits(ReadPages(pages), owner, repo) == read
    ensures pages[i].Page? && !pages[i].hasNextPage ==>
              ToCommits(ReadPages(pages), owner, repo) == read + ToCommits(pages[i].nodes, owner, repo)
    ensures pages[i].Page? && pages[i].hasNextPage ==>
              ToCommits(ReadPages(pages), owner, repo)
              == (read + ToCommits(pages[i].nodes, owner, repo)) + ToCommits(ReadFrom(pages, i + 1), owner, repo)
  {
    if pages[i].NoHistory? {
      assert read + [] == read;
    } else {
      var batch := ToCommits(pages[i].nodes, owner, repo);
      var rest := if pages[i].hasNextPage then ReadFrom(pages, i + 1) else [];
      ToCommitsAppend(pages[i].nodes, rest, owner, repo);
      assert pages[i].nodes + [] == pages[i].nodes;
      assert read + (batch + ToCommits(rest, owner, repo)) == (read + batch) + ToCommits(rest, owner, repo);
    }
  }

  lemma {:induction false} ToCommitsAppend(a: seq<CommitNode>, b: seq<CommitNode>, owner: string, repo: string)
    ensures ToCommits(a + b, owner, repo) == ToCommits(a, owner, repo) + ToCommits(b, owner, repo)
  {
    var l, r := ToCommits(a + b, owner, repo), ToCommits(a, owner, repo) + ToCommits(b, owner, repo);
    assert |l| == |r|;
    forall i | 0 <= i < |l| ensures l[i] == r[i] {
      if i < |a| { assert (a + b)[i] == a[i]; } else { assert (a + b)[i] == b[i - |a|]; }
    }
  }

  /** The loop reads exactly the pages before and including the first one that reports no
      next page, provided every page up to it has history. */
  lemma ReadPagesUpToLast(pages: seq<Page>, k: nat)
    requires k < |pages|
    requires forall i :: 0 <= i <= k ==> pages[i].Page?
    requires forall i :: 0 <= i < k ==> pages[i].hasNextPage
    requires !pages[k].hasNextPage
    ensures ReadPages(pages) == ConcatRange(pages, 0, k + 1)
  {
    ReadFromUpToLast(pages, 0, k);
  }

  lemma {:induction false} ReadFromUpToLast(pages: seq<Page>, j: nat, k: nat)
    requires j <= k < |pages|
    requires forall i :: j <= i <= k ==> pages[i].Page?
    requires forall i :: j <= i < k ==> pages[i].hasNextPage
    requires !pages[k].hasNextPage
    ensures ReadFrom(pages, j) == ConcatRange(pages, j, k + 1)
    decreases k - j
  {
    if j == k {
      assert pages[k].nodes + [] == pages[k].nodes;
    } else {
      ReadFromUpToLast(pages, j + 1, k);
    }
  }

  /** Every commit of a repository names that repository and a non-empty author, and the
      repository path splits back into owner and name. */
  lemma RepoCommitsWellFormed(owner: string, repo: string, pages: seq<Page>)
    requires '/' !in owner && '/' !in repo
    ensures forall c :: c in ToCommits(ReadPages(pages), owner, repo) ==>
              c.repository == RepoPath(owner, repo) && c.author != ""
    ensures Split(RepoPath(owner, repo), '/') == [owner, repo]
  {
    assert Join([owner, repo], '/') == RepoPath(owner, repo);
    SplitJoin([owner, repo], '/');
  }

  /** A repository and its commits, as one entry of the per-organisation dict. */
  datatype RepoCommits = RepoCommits(name: string, commits: seq<Commit>)

  /** What the fetcher can see of one repository: its per-repository cache file, if one
      exists, and the responses the history query would give. */
  datatype RepoSource = RepoSource(name: string, cacheFile: Option<seq<Commit>>, pages: seq<Page>)

  /** The commits kept for one repository: the cache file when caching is on and the file
      exists, otherwise a fresh fetch. */
  function RepoCommitsOf(org: string, src: RepoSource, useCache: bool): seq<Commit> {
    if useCache && src.cacheFile.Some? then src.cacheFile.value
    else ToCommits(ReadPages(src.pages), org, src.name)
  }

  function OrgCommitsOf(org: string, repos: seq<RepoSource>, useCache: bool): (r: seq<RepoCommits>)
    ensures |r| == |repos|
    ensures forall i :: 0 <= i < |repos| ==>
              r[i] == RepoCommits(repos[i].name, RepoCommitsOf(org, repos[i], useCache))
  {
    if repos == [] then []
    else OrgCommitsOf(org, repos[..|repos| - 1], useCache)
         + [RepoCommits(repos[|repos| - 1].name, RepoCommitsOf(org, repos[|repos| - 1], useCache))]
  }

  /** Every commit of the organisation, repository by repository. */
  function Flatten(repos: seq<RepoCommits>): seq<Commit> {
    if repos == [] then [] else Flatten(repos[..|repos| - 1]) + repos[|repos| - 1].commits
  }

  function AuthorKey(c: Commit): string {
    Lower(c.author)
  }

  /** The commits whose author equals the username case-insensitively, in order. */
  function ByAuthor(cs: seq<Commit>, username: string): seq<Commit> {
    Bucket(cs, AuthorKey, Lower(username))
  }

  lemma ByAuthorMembers(cs: seq<Commit>, username: string, c: Commit)
    ensures c in ByAuthor(cs, username) <==> c in cs && SameIgnoringCase(c.author, username)
  {
    InBucket(cs, AuthorKey, Lower(username), c);
  }

  /** `get_user_commits` over an organisation's repositories. */
  method UserCommitsIn(repos: seq<RepoCommits>, username: string) returns (r: seq<Commit>)
    ensures r == ByAuthor(Flatten(repos), username)
  {
    r := [];
    var key := Lower(username);
    for i := 0 to |repos|
      invariant r == ByAuthor(Flatten(repos[..i]), username)
    {
      assert repos[..i + 1][..i] == repos[..i];
      var cs := repos[i].commits;
      assert Flatten(repos[..i]) + cs[..0] == Flatten(repos[..i]);
      for j := 0 to |cs|
        invariant r == ByAuthor(Flatten(repos[..i]) + cs[..j], username)
      {
        assert cs[..j + 1] == cs[..j] + [cs[j]];
        assert Flatten(repos[..i]) + cs[..j + 1] == (Flatten(repos[..i]) + cs[..j]) + [cs[j]];
        BucketSnoc(Flatten(repos[..i]) + cs[..j], cs[j], AuthorKey, key);
        if Lower(cs[j].author) == key {
          r := r + [cs[j]];
        }
      }
      assert cs[..|cs|] == cs;
    }
    assert repos[..|repos|] == repos;
  }

  /** The shas of a list of commits. */
  function Shas(cs: seq<Commit>): set<string> {
    set c | c in cs :: c.sha
  }

  /** Keeps the first commit of every sha, in input order (the `seen_shas` filter). */
  function DedupSha(cs: seq<Commit>): seq<Commit> {
    if cs == [] then []
    else
      var init, last := cs[..|cs| - 1], cs[|cs| - 1];
      if last.sha in Shas(init) then DedupSha(init) else DedupSha(init) + [last]
  }

  /** The position of the first commit carrying sha h. */
  function FirstWithSha(cs: seq<Commit>, h: string): (i: nat)
    requires h in Shas(cs)
    ensures i < |cs| && cs[i].sha == h
    ensures forall j :: 0 <= j < i ==> cs[j].sha != h
  {
    var init := cs[..|cs| - 1];
    if h in Shas(init) then FirstWithSha(init, h)
    else
      assert forall j :: 0 <= j < |init| ==> init[j] in init;
      |cs| - 1
  }

  predicate DistinctShas(cs: seq<Commit>) {
    forall i, j :: 0 <= i < j < |cs| ==> cs[i].sha != cs[j].sha
  }

  lemma ShasSnoc(cs: seq<Commit>, c: Commit)
    ensures Shas(cs + [c]) == Shas(cs) + {c.sha}
  {
    assert forall x :: x in cs + [c] <==> x in cs || x == c;
  }

  lemma FirstWithShaSnoc(init: seq<Commit>, last: Commit, h: string)
    requires h in Shas(init)
    ensures h in Shas(init + [last]) && FirstWithSha(init + [last], h) == FirstWithSha(init, h)
  {
    ShasSnoc(init, last);
    assert (init + [last])[..|init|] == init;
  }

  /** De-duplication keeps one commit per sha and loses no sha. */
  lemma {:induction false} DedupShaDistinct(cs: seq<Commit>)
    ensures DistinctShas(DedupSha(cs))
    ensures Shas(DedupSha(cs)) == Shas(cs)
  {
    if cs != [] {
      var init, last := cs[..|cs| - 1], cs[|cs| - 1];
      DedupShaDistinct(init);
      assert cs == init + [last];
      ShasSnoc(init, last);
      var d := DedupSha(init);
      if last.sha !in Shas(init) {
        ShasSnoc(d, last);
        forall i | 0 <= i < |d| ensures d[i].sha != last.sha {
          assert d[i] in d;
        }
      }
    }
  }

  /** The commit kept for each sha is the first commit with that sha. */
  lemma {:induction false} DedupShaKeepsFirst(cs: seq<Commit>)
    ensures forall c :: c in DedupSha(cs) ==> c.sha in Shas(cs) && c == cs[FirstWithSha(cs, c.sha)]
  {
    if cs != [] {
      var init, last := cs[..|cs| - 1], cs[|cs| - 1];
      DedupShaKeepsFirst(init);
      assert cs == init + [last];
      forall c | c in DedupSha(cs) ensures c.sha in Shas(cs) && c == cs[FirstWithSha(cs, c.sha)] {
        if c in DedupSha(init) {
          FirstWithShaSnoc(init, last, c.sha);
        } else {
          ShasSnoc(init, last);
        }
      }
    }
  }

  /** The kept commits come in the order in which their shas first appear. */
  lemma {:induction false} DedupShaKeepsOrder(cs: seq<Commit>)
    ensures forall c :: c in DedupSha(cs) ==> c.sha in Shas(cs)
    ensures forall i, j :: 0 <= i < j < |DedupSha(cs)| ==>
              FirstWithSha(cs, DedupSha(cs)[i].sha) < FirstWithSha(cs, DedupSha(cs)[j].sha)
  {
    DedupShaKeepsFirst(cs);
    if cs != [] {
      var init, last := cs[..|cs| - 1], cs[|cs| - 1];
      DedupShaKeepsOrder(init);
      assert cs == init + [last];
      var d := DedupSha(init);
      forall i | 0 <= i < |d| ensures FirstWithSha(cs, d[i].sha) == FirstWithSha(init, d[i].sha) < |init| {
        assert d[i] in d;
        FirstWithShaSnoc(init, last, d[i].sha);
      }
      if last.sha !in Shas(init) {
        ShasSnoc(init, last);
        assert FirstWithSha(cs, last.sha) == |init|;
      }
    }
  }

  /** Every commit kept by the de-duplication comes from the input. */
  lemma {:induction false} DedupShaSubset(cs: seq<Commit>)
    ensures forall c :: c in DedupSha(cs) ==> c in cs
  {
    if cs != [] {
      DedupShaSubset(cs[..|cs| - 1]);
    }
  }

  /** The commits of several organisations in order of the organisation list. */
  function UserCommitsAcross(orgs: seq<string>, memo: map<string, seq<RepoCommits>>, username: string): seq<Commit>
    requires forall o :: o in orgs ==> o in memo
  {
    if orgs == [] then []
    else UserCommitsAcross(orgs[..|orgs| - 1], memo, username)
         + ByAuthor(Flatten(memo[orgs[|orgs| - 1]]), username)
  }

  /** The shared per-organisation commit memo, `OrgCommitCache._org_commits`. */
  class OrgCommitCache {
    var orgCommits: map<string, seq<RepoCommits>>

    constructor()
      ensures orgCommits == map[]
    {
      orgCommits := map[];
    }

    /** `fetch_org_commits`: a stored organisation is returned as stored; otherwise every
        repository the listing returned is loaded or fetched, and the result is stored. */
    method FetchOrgCommits(org: string, repos: seq<RepoSource>, useCache: bool) returns (r: seq<RepoCommits>)
      modifies this
      ensures org in old(orgCommits) ==> r == old(orgCommits)[org] && orgCommits == old(orgCommits)
      ensures org !in old(orgCommits) ==>
                r == OrgCommitsOf(org, repos, useCache) && orgCommits == old(orgCommits)[org := r]
    {
      if org in orgCommits {
        return orgCommits[org];
      }
      r := [];
      for i := 0 to |repos|
        invariant r == OrgCommitsOf(org, repos[..i], useCache)
        invariant orgCommits == old(orgCommits)
      {
        assert repos[..i + 1][..i] == repos[..i];
        var cs: seq<Commit>;
        if useCache && repos[i].cacheFile.Some? {
          cs := repos[i].cacheFile.value;
        } else {
          cs := FetchRepoCommits(org, repos[i].name, repos[i].pages);
        }
        r := r + [RepoCommits(repos[i].name, cs)];
      }
      assert repos[..|repos|] == repos;
      orgCommits := orgCommits[org := r];
    }

    /** `get_user_commits`. */
    method GetUserCommits(org: string, repos: seq<RepoSource>, username: string, useCache: bool)
      returns (r: seq<Commit>)
      modifies this
      ensures org in orgCommits
      ensures r == ByAuthor(Flatten(orgCommits[org]), username)
      ensures org in old(orgCommits) ==> orgCommits == old(orgCommits)
      ensures org !in old(orgCommits) ==>
                orgCommits == old(orgCommits)[org := OrgCommitsOf(org, repos, useCache)]
    {
      var all := FetchOrgCommits(org, repos, useCache);
      r := UserCommitsIn(all, username);
    }
  }

  /** The memo m' extends m with entries, fetched from `sources`, only for organisations
      in orgs. */
  ghost predicate MemoExtends(m: map<string, seq<RepoCommits>>, m': map<string, seq<RepoCommits>>,
                              orgs: seq<string>, sources: string -> seq<RepoSource>, useCache: bool)
  {
    && (forall o :: o in m ==> o in m' && m'[o] == m[o])
    && (forall o :: o in m' && o !in m ==> o in orgs && m'[o] == OrgCommitsOf(o, sources(o), useCache))
  }

  lemma MemoExtendsStep(m0: map<string, seq<RepoCommits>>, m: map<string, seq<RepoCommits>>,
                        m': map<string, seq<RepoCommits>>, orgs: seq<string>, i: nat,
                        sources: string -> seq<RepoSource>, useCache: bool)
    requires i < |orgs|
    requires forall o :: o in orgs[..i] ==> o in m
    requires MemoExtends(m0, m, orgs[..i], sources, useCache)
    requires orgs[i] in m' && (orgs[i] in m ==> m' == m)
    requires orgs[i] !in m ==> m' == m[orgs[i] := OrgCommitsOf(orgs[i], sources(orgs[i]), useCache)]
    ensures forall o :: o in orgs[..i + 1] ==> o in m'
    ensures forall o :: o in m ==> o in m' && m'[o] == m[o]
    ensures MemoExtends(m0, m', orgs[..i + 1], sources, useCache)
  {
    assert orgs[..i + 1] == orgs[..i] + [orgs[i]];
  }

  /** One commit of the de-duplication loop: its sha is recorded, and it is kept when the
      sha is new. */
  lemma DedupShaStep(visited: seq<Commit>, batch: seq<Commit>, j: nat)
    requires j < |batch|
    ensures var done, c := visited + batch[..j], batch[j];
            && DedupSha(visited + batch[..j + 1])
               == (if c.sha in Shas(done) then DedupSha(done) else DedupSha(done) + [c])
            && Shas(visited + batch[..j + 1]) == Shas(done) + {c.sha}
  {
    var done, c := visited + batch[..j], batch[j];
    assert visited + batch[..j + 1] == done + [c];
    assert (done + [c])[..|done|] == done;
    ShasSnoc(done, c);
  }

  /** Appends to the kept commits those of batch whose sha has not been seen yet. */
  method AppendUnseen(commits: seq<Commit>, seen: set<string>, ghost visited: seq<Commit>, batch: seq<Commit>)
    returns (commits': seq<Commit>, seen': set<string>)
    requires commits == DedupSha(visited) && seen == Shas(visited)
    ensures commits' == DedupSha(visited + batch) && seen' == Shas(visited + batch)
  {
    commits', seen' := commits, seen;
    assert visited + batch[..0] == visited;
    for j := 0 to |batch|
      invariant commits' == DedupSha(visited + batch[..j]) && seen' == Shas(visited + batch[..j])
    {
      var c := batch[j];
      DedupShaStep(visited, batch, j);
      if c.sha !in seen' {
        commits' := commits' + [c];
        seen' := seen' + {c.sha};
      }
    }
    assert batch[..|batch|] == batch;
  }

  /** `GitHubFetcher.fetch_all_commits`: one user's commits over the configured
      organisations, each fetched through the shared memo, without repeating a sha.
      `sources` gives, per organisation, what the repository listing and fetches yield. */
  method FetchAllCommits(cache: OrgCommitCache, orgs: seq<string>, sources: string -> seq<RepoSource>,
                         username: string, useCache: bool) returns (commits: seq<Commit>)
    modifies cache
    ensures forall o :: o in orgs ==> o in cache.orgCommits
    ensures MemoExtends(old(cache.orgCommits), cache.orgCommits, orgs, sources, useCache)
    ensures commits == DedupSha(UserCommitsAcross(orgs, cache.orgCommits, username))
  {
    commits := [];
    var seen: set<string> := {};
    ghost var visited: seq<Commit> := [];
    for i := 0 to |orgs|
      invariant forall o :: o in orgs[..i] ==> o in cache.orgCommits
      invariant MemoExtends(old(cache.orgCommits), cache.orgCommits, orgs[..i], sources, useCache)
      invariant visited == UserCommitsAcross(orgs[..i], cache.orgCommits, username)
      invariant commits == DedupSha(visited) && seen == Shas(visited)
    {
      ghost var before := cache.orgCommits;
      var userCommits := cache.GetUserCommits(orgs[i], sources(orgs[i]), username, useCache);
      MemoExtendsStep(old(cache.orgCommits), before, cache.orgCommits, orgs, i, sources, useCache);
      UserCommitsAcrossStable(orgs[..i], before, cache.orgCommits, username);
      assert orgs[..i + 1][..i] == orgs[..i];
      commits, seen := AppendUnseen(commits, seen, visited, userCommits);
      visited := visited + userCommits;
    }
    assert orgs[..|orgs|] == orgs;
  }

  /** Adding organisations to the memo does not change what the ones already there give. */
  lemma {:induction false} UserCommitsAcrossStable(orgs: seq<string>, m: map<string, seq<RepoCommits>>,
                                                   m': map<string, seq<RepoCommits>>, username: string)
    requires forall o :: o in orgs ==> o in m
    requires forall o :: o in m ==> o in m' && m'[o] == m[o]
    ensures forall o :: o in orgs ==> o in m'
    ensures UserCommitsAcross(orgs, m, username) == UserCommitsAcross(orgs, m', username)
  {
    if orgs != [] {
      UserCommitsAcrossStable(orgs[..|orgs| - 1], m, m', username);
    }
  }

  /** The user's commits all match the username case-insensitively and never repeat a sha. */
  lemma AllCommitsMatchUser(orgs: seq<string>, memo: map<string, seq<RepoCommits>>, username: string)
    requires forall o :: o in orgs ==> o in memo
    ensures forall c :: c in DedupSha(UserCommitsAcross(orgs, memo, username)) ==>
              SameIgnoringCase(c.author, username)
    ensures DistinctShas(DedupSha(UserCommitsAcross(orgs, memo, username)))
  {
    var all := UserCommitsAcross(orgs, memo, username);
    DedupShaSubset(all);
    DedupShaDistinct(all);
    UserCommitsAcrossMatch(orgs, memo, username);
  }

  lemma {:induction false} UserCommitsAcrossMatch(orgs: seq<string>, memo: map<string, seq<RepoCommits>>, username: string)
    requires forall o :: o in orgs ==> o in memo
    ensures forall c :: c in UserCommitsAcross(orgs, memo, username) ==> SameIgnoringCase(c.author, username)
  {
    if orgs != [] {
      UserCommitsAcrossMatch(orgs[..|orgs| - 1], memo, username);
      var last := Flatten(memo[orgs[|orgs| - 1]]);
      forall c | c in ByAuthor(last, username) ensures SameIgnoringCase(c.author, username) {
        ByAuthorMembers(last, username, c);
      }
    }
  }
}

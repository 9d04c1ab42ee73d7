/** The record-shaping side of the pull-request fetcher: GraphQL pull-request nodes become
    PR records (with their reviews), PRs created before the cutoff are dropped, cursor pages
    are read until the last one, each organisation is fetched once into an in-memory memo,
    and the PRs of all organisations are keyed by `org/repo`. The GraphQL client, the
    repository listing and the per-repository JSON files are inputs; a timestamp is read by
    a parse function that may fail. */
module PrFetcher {
  import opened Base

  /** One review as the fetcher stores it. */
  datatype Review = Review(author: string, submittedAt: Option<string>, state: Option<string>)

  /** One pull request as the fetcher stores it (pr_fetcher.py's PR dict). */
  datatype PullRequest = PullRequest(
    number: int,
    repository: string,
    title: string,
    author: string,
    state: Option<string>,
    createdAt: Option<string>,
    closedAt: Option<string>,
    mergedAt: Option<string>,
    additions: int,
    deletions: int,
    changedFiles: int,
    reviews: seq<Review>)

  /** A review node: `authorLogin` is `author.login`, None when the author or its login is
      absent or null. */
  datatype ReviewNode = ReviewNode(authorLogin: Option<string>, submittedAt: Option<string>,
                                   state: Option<string>)

  /** A pull-request node of the PR query. None stands for an absent key (for the author,
      also a null one). */
  datatype PrNode = PrNode(
    number: int,
    title: Option<string>,
    authorLogin: Option<string>,
    state: Option<string>,
    createdAt: Option<string>,
    closedAt: Option<string>,
    mergedAt: Option<string>,
    additions: Option<int>,
    deletions: Option<int>,
    changedFiles: Option<int>,
    reviews: seq<ReviewNode>)

  /** One response of the paged PR query: a page of nodes, or a response without a
      repository (or a failed request), which ends the loop keeping what was read. */
  datatype PrPage = PrPage(nodes: seq<PrNode>, hasNextPage: bool) | NoRepository

  /** A login, "unknown" unless present and non-empty. */
  function Login(login: Option<string>): string {
    if Truthy(login) then login.value else "unknown"
  }

  function RepoPath(owner: string, repo: string): string {
    owner + "/" + repo
  }

  function ValueOrZero(n: Option<int>): int {
    if n.Some? then n.value else 0
  }

  function ToReview(n: ReviewNode): Review {
    Review(Login(n.authorLogin), n.submittedAt, n.state)
  }

  function ToReviews(ns: seq<ReviewNode>): seq<Review> {
    seq(|ns|, i requires 0 <= i < |ns| => ToReview(ns[i]))
  }

  function ToPr(n: PrNode, owner: string, repo: string): PullRequest {
    PullRequest(n.number, RepoPath(owner, repo), if n.title.Some? then n.title.value else "",
                Login(n.authorLogin), n.state, n.createdAt, n.closedAt, n.mergedAt,
                ValueOrZero(n.additions), ValueOrZero(n.deletions), ValueOrZero(n.changedFiles),
                ToReviews(n.reviews))
  }

  /** The message of the error raised by a timestamp that does not parse. */
  const BadTimestamp := "Invalid isoformat string"

  /** Whether a node passes the cutoff: a node without `createdAt` passes, one whose
      `createdAt` does not parse raises. */
  function PassesCutoff(n: PrNode, cutoff: int, parse: string -> Option<int>): Result<bool> {
    if !Truthy(n.createdAt) then Ok(true)
    else if parse(n.createdAt.value).None? then Err(BadTimestamp)
    else Ok(parse(n.createdAt.value).value >= cutoff)
  }

  /** The PRs made of some nodes, in node order, or the error of the first node whose
      timestamp does not parse. */
  function ShapeNodes(nodes: seq<PrNode>, owner: string, repo: string, cutoff: int,
                      parse: string -> Option<int>): Result<seq<PullRequest>>
  {
    if nodes == [] then Ok([])
    else
      var last := nodes[|nodes| - 1];
      var front := ShapeNodes(nodes[..|nodes| - 1], owner, repo, cutoff, parse);
      var keep := PassesCutoff(last, cutoff, parse);
      if front.Err? then front
      else if keep.Err? then Err(keep.message)
      else Ok(front.value + (if keep.value then [ToPr(last, owner, repo)] else []))
  }

  /** The nodes the cursor loop reads, from the i-th response on: each page's nodes up to
      and including the first page without a next page. */
  function ReadFrom(pages: seq<PrPage>, i: nat): seq<PrNode>
    decreases |pages| - i
  {
    if i >= |pages| || pages[i].NoRepository? then []
    else pages[i].nodes + (if pages[i].hasNextPage then ReadFrom(pages, i + 1) else [])
  }

  function RepoPrs(owner: string, repo: string, pages: seq<PrPage>, cutoff: int,
                   parse: string -> Option<int>): Result<seq<PullRequest>>
  {
    ShapeNodes(ReadFrom(pages, 0), owner, repo, cutoff, parse)
  }

  /** The review loop: one review per review node, in order. */
  method ReviewsOf(ns: seq<ReviewNode>) returns (reviews: seq<Review>)
    ensures reviews == ToReviews(ns)
  {
    reviews := [];
    for k := 0 to |ns|
      invariant reviews == ToReviews(ns[..k])
    {
      var login := "unknown";
      if ns[k].authorLogin.Some? && ns[k].authorLogin.value != "" {
        login := ns[k].authorLogin.value;
      }
      reviews := reviews + [Review(login, ns[k].submittedAt, ns[k].state)];
    }
    assert ns[..|ns|] == ns;
  }

  /** The node loop of one page, appending to the PRs read so far. */
  method ShapePage(prs: seq<PullRequest>, ghost done: seq<PrNode>, nodes: seq<PrNode>, owner: string,
                   repo: string, cutoff: int, parse: string -> Option<int>)
    returns (r: Result<seq<PullRequest>>)
    requires ShapeNodes(done, owner, repo, cutoff, parse) == Ok(prs)
    ensures r == ShapeNodes(done + nodes, owner, repo, cutoff, parse)
  {
    var acc := prs;
    assert done + nodes[..0] == done;
    for k := 0 to |nodes|
      invariant ShapeNodes(done + nodes[..k], owner, repo, cutoff, parse) == Ok(acc)
    {
      var node := nodes[k];
      ShapeStep(done, nodes, k, owner, repo, cutoff, parse);
      if node.createdAt.Some? && node.createdAt.value != "" {
        var created := parse(node.createdAt.value);
        if created.None? {
          ShapeFailsAt(done, nodes, k, owner, repo, cutoff, parse);
          return Err(BadTimestamp);
        }
        if created.value < cutoff {
          assert acc + [] == acc;
          continue;
        }
      }
      var reviews := ReviewsOf(node.reviews);
      var pr := PullRequest(node.number, RepoPath(owner, repo),
                            if node.title.Some? then node.title.value else "",
                            Login(node.authorLogin), node.state, node.createdAt, node.closedAt,
                            node.mergedAt, ValueOrZero(node.additions), ValueOrZero(node.deletions),
                            ValueOrZero(node.changedFiles), reviews);
      assert pr == ToPr(node, owner, repo);
      acc := acc + [pr];
    }
    assert nodes[..|nodes|] == nodes;
    r := Ok(acc);
  }

  /** A node whose timestamp does not parse makes the whole page fail. */
  lemma ShapeFailsAt(done: seq<PrNode>, nodes: seq<PrNode>, k: nat, owner: string, repo: string, cutoff: int,
                     parse: string -> Option<int>)
    requires k < |nodes|
    requires ShapeNodes(done + nodes[..k], owner, repo, cutoff, parse).Ok?
    requires PassesCutoff(nodes[k], cutoff, parse).Err?
    ensures ShapeNodes(done + nodes, owner, repo, cutoff, parse) == Err(BadTimestamp)
  {
    ShapeStep(done, nodes, k, owner, repo, cutoff, parse);
    ShapeNodesErrSticks(done + nodes[..k + 1], nodes[k + 1..], owner, repo, cutoff, parse);
    assert done + nodes[..k + 1] + nodes[k + 1..] == done + nodes;
  }

  lemma ShapeStep(done: seq<PrNode>, nodes: seq<PrNode>, k: nat, owner: string, repo: string, cutoff: int,
                  parse: string -> Option<int>)
    requires k < |nodes|
    requires ShapeNodes(done + nodes[..k], owner, repo, cutoff, parse).Ok?
    ensures var front := ShapeNodes(done + nodes[..k], owner, repo, cutoff, parse).value;
            var keep := PassesCutoff(nodes[k], cutoff, parse);
            ShapeNodes(done + nodes[..k + 1], owner, repo, cutoff, parse)
            == if keep.Err? then Err(BadTimestamp)
               else Ok(front + (if keep.value then [ToPr(nodes[k], owner, repo)] else []))
  {
    assert (done + nodes[..k + 1])[..|done| + k] == done + nodes[..k];
  }

  /** `_fetch_repo_prs_graphql` over the responses the client would give. */
  method FetchRepoPrs(owner: string, repo: string, pages: seq<PrPage>, cutoff: int,
                      parse: string -> Option<int>) returns (r: Result<seq<PullRequest>>)
    ensures r == RepoPrs(owner, repo, pages, cutoff, parse)
  {
    var prs: seq<PullRequest> := [];
    ghost var done: seq<PrNode> := [];
    var i := 0;
    while i < |pages|
      invariant 0 <= i <= |pages|
      invariant ShapeNodes(done, owner, repo, cutoff, parse) == Ok(prs)
      invariant ReadFrom(pages, 0) == done + ReadFrom(pages, i)
      decreases |pages| - i
    {
      if pages[i].NoRepository? {
        assert done + [] == done;
        return Ok(prs);
      }
      var next := ShapePage(prs, done, pages[i].nodes, owner, repo, cutoff, parse);
      ReadFromStep(pages, i, done);
      if next.Err? {
        ShapeNodesErrSticks(done + pages[i].nodes, if pages[i].hasNextPage then ReadFrom(pages, i + 1) else [],
                            owner, repo, cutoff, parse);
        return next;
      }
      prs := next.value;
      done := done + pages[i].nodes;
      if !pages[i].hasNextPage {
        assert done + [] == done;
        return Ok(prs);
      }
      i := i + 1;
    }
    assert done + [] == done;
    r := Ok(prs);
  }

  lemma ReadFromStep(pages: seq<PrPage>, i: nat, done: seq<PrNode>)
    requires i < |pages| && pages[i].PrPage?
    ensures done + ReadFrom(pages, i)
            == (done + pages[i].nodes) + (if pages[i].hasNextPage then ReadFrom(pages, i + 1) else [])
  {
  }

  /** Once a node fails, more nodes do not bring the PRs back. */
  lemma {:induction false} ShapeNodesErrSticks(a: seq<PrNode>, b: seq<PrNode>, owner: string, repo: string,
                                               cutoff: int, parse: string -> Option<int>)
    requires ShapeNodes(a, owner, repo, cutoff, parse).Err?
    ensures ShapeNodes(a + b, owner, repo, cutoff, parse) == ShapeNodes(a, owner, repo, cutoff, parse)
  {
    if b == [] {
      assert a + b == a;
    } else {
      ShapeNodesErrSticks(a, b[..|b| - 1], owner, repo, cutoff, parse);
      assert (a + b)[..|a + b| - 1] == a + b[..|b| - 1];
    }
  }

  /** The kept PRs are the nodes that pass the cutoff, shaped: each names the repository,
      has a non-empty author (the login, or "unknown"), its reviews in node order, and was
      created at or after the cutoff unless it has no creation time. */
  lemma {:induction false} ShapedPrs(nodes: seq<PrNode>, owner: string, repo: string, cutoff: int,
                                     parse: string -> Option<int>, pr: PullRequest)
    requires ShapeNodes(nodes, owner, repo, cutoff, parse).Ok?
    ensures pr in ShapeNodes(nodes, owner, repo, cutoff, parse).value <==>
              exists n :: n in nodes && PassesCutoff(n, cutoff, parse) == Ok(true) && pr == ToPr(n, owner, repo)
    ensures pr in ShapeNodes(nodes, owner, repo, cutoff, parse).value ==>
              && pr.repository == RepoPath(owner, repo)
              && pr.author != ""
              && (Truthy(pr.createdAt) ==> parse(pr.createdAt.value).Some? && parse(pr.createdAt.value).value >= cutoff)
  {
    if nodes != [] {
      var init := nodes[..|nodes| - 1];
      ShapedPrs(init, owner, repo, cutoff, parse, pr);
      SplitLast(nodes);
    }
  }

  /** A node without `createdAt` is never dropped, and one created before the cutoff always
      is. */
  lemma CutoffCases(n: PrNode, cutoff: int, parse: string -> Option<int>)
    ensures !Truthy(n.createdAt) ==> PassesCutoff(n, cutoff, parse) == Ok(true)
    ensures Truthy(n.createdAt) && parse(n.createdAt.value).Some? && parse(n.createdAt.value).value < cutoff
            ==> PassesCutoff(n, cutoff, parse) == Ok(false)
    ensures Truthy(n.createdAt) && parse(n.createdAt.value).None? ==> PassesCutoff(n, cutoff, parse).Err?
  {
  }

  /** The reviews of a PR are its review nodes in order, each with a non-empty author that
      is the login when there is one. */
  lemma ReviewsInOrder(n: PrNode, owner: string, repo: string)
    ensures var rs := ToPr(n, owner, repo).reviews;
            && |rs| == |n.reviews|
            && forall k :: 0 <= k < |rs| ==>
                 rs[k].submittedAt == n.reviews[k].submittedAt && rs[k].state == n.reviews[k].state
                 && rs[k].author != ""
                 && (Truthy(n.reviews[k].authorLogin) ==> rs[k].author == n.reviews[k].authorLogin.value)
                 && (!Truthy(n.reviews[k].authorLogin) ==> rs[k].author == "unknown")
  {
  }

  /** A repository and its PRs, as one entry of the per-organisation dict. */
  datatype RepoEntry = RepoEntry(name: string, prs: seq<PullRequest>)

  /** What the fetcher can see of one repository: its per-repository cache file, if one
      exists, and the responses the PR query would give. */
  datatype RepoSource = RepoSource(name: string, cacheFile: Option<seq<PullRequest>>, pages: seq<PrPage>)

  /** The PRs of one repository: the cache file when caching is on and the file exists,
      otherwise a fresh fetch, which may fail. */
  function SourcePrs(org: string, src: RepoSource, useCache: bool, cutoff: int,
                     parse: string -> Option<int>): Result<seq<PullRequest>>
  {
    if useCache && src.cacheFile.Some? then Ok(src.cacheFile.value)
    else RepoPrs(org, src.name, src.pages, cutoff, parse)
  }

  /** The entries gathered over a run of repositories, and whether a fetch failed. */
  datatype Gathered = Gathered(entries: seq<RepoEntry>, failed: bool)

  /** The repository loop of `fetch_org_prs`: entries in listing order; the first failing
      fetch raises out of the loop, leaving the entries gathered before it. */
  function Gather(org: string, repos: seq<RepoSource>, useCache: bool, cutoff: int,
                  parse: string -> Option<int>): Gathered
  {
    if repos == [] then Gathered([], false)
    else
      var front := Gather(org, repos[..|repos| - 1], useCache, cutoff, parse);
      var last := repos[|repos| - 1];
      var prs := SourcePrs(org, last, useCache, cutoff, parse);
      if front.failed then front
      else if prs.Err? then Gathered(front.entries, true)
      else Gathered(front.entries + [RepoEntry(last.name, prs.value)], false)
  }

  /** What `fetch_org_prs` stores for an organisation; a listing that raised (None) leaves
      it empty. */
  function OrgPrsOf(org: string, listing: Option<seq<RepoSource>>, useCache: bool, cutoff: int,
                    parse: string -> Option<int>): seq<RepoEntry>
  {
    if listing.None? then [] else Gather(org, listing.value, useCache, cutoff, parse).entries
  }

  lemma GatherSnoc(org: string, repos: seq<RepoSource>, i: nat, useCache: bool, cutoff: int,
                   parse: string -> Option<int>)
    requires i < |repos|
    ensures Gather(org, repos[..i + 1], useCache, cutoff, parse)
            == var front := Gather(org, repos[..i], useCache, cutoff, parse);
               var prs := SourcePrs(org, repos[i], useCache, cutoff, parse);
               if front.failed then front
               else if prs.Err? then Gathered(front.entries, true)
               else Gathered(front.entries + [RepoEntry(repos[i].name, prs.value)], false)
  {
    assert repos[..i + 1][..i] == repos[..i];
  }

  /** The gathered entries are those of the repositories before the first failure, in
      listing order, each holding that repository's PRs; without a failure, every
      repository has its entry. */
  lemma {:induction false} GatherPrefix(org: string, repos: seq<RepoSource>, useCache: bool, cutoff: int,
                                        parse: string -> Option<int>)
    ensures var g := Gather(org, repos, useCache, cutoff, parse);
            && |g.entries| <= |repos|
            && (!g.failed <==> |g.entries| == |repos|)
            && (forall i :: 0 <= i < |g.entries| ==>
                  g.entries[i].name == repos[i].name
                  && SourcePrs(org, repos[i], useCache, cutoff, parse) == Ok(g.entries[i].prs))
            && (g.failed ==> SourcePrs(org, repos[|g.entries|], useCache, cutoff, parse).Err?)
  {
    if repos != [] {
      var init := repos[..|repos| - 1];
      GatherPrefix(org, init, useCache, cutoff, parse);
      var g0 := Gather(org, init, useCache, cutoff, parse);
      assert forall i :: 0 <= i < |init| ==> repos[i] == init[i];
    }
  }

  /** The shared per-organisation PR memo, `OrgPRCache._org_prs`. */
  class OrgPrCache {
    var orgPrs: map<string, seq<RepoEntry>>

    constructor()
      ensures orgPrs == map[]
    {
      orgPrs := map[];
    }

    /** `fetch_org_prs`: a stored organisation is returned as stored, without fetching;
        otherwise the repositories are loaded or fetched in listing order until one raises,
        and whatever was gathered is stored. */
    method FetchOrgPrs(org: string, listing: Option<seq<RepoSource>>, useCache: bool, cutoff: int,
                       parse: string -> Option<int>) returns (r: seq<RepoEntry>)
      modifies this
      ensures org in old(orgPrs) ==> r == old(orgPrs)[org] && orgPrs == old(orgPrs)
      ensures org !in old(orgPrs) ==>
                r == OrgPrsOf(org, listing, useCache, cutoff, parse) && orgPrs == old(orgPrs)[org := r]
    {
      if org in orgPrs {
        return orgPrs[org];
      }
      r := [];
      if listing.Some? {
        var repos := listing.value;
        var i := 0;
        while i < |repos|
          invariant 0 <= i <= |repos|
          invariant Gather(org, repos[..i], useCache, cutoff, parse) == Gathered(r, false)
          invariant orgPrs == old(orgPrs)
          decreases |repos| - i
        {
          GatherSnoc(org, repos, i, useCache, cutoff, parse);
          var prs: Result<seq<PullRequest>>;
          if useCache && repos[i].cacheFile.Some? {
            prs := Ok(repos[i].cacheFile.value);
          } else {
            prs := FetchRepoPrs(org, repos[i].name, repos[i].pages, cutoff, parse);
          }
          if prs.Err? {
            GatherFailedSticks(org, repos, i + 1, useCache, cutoff, parse);
            break;
          }
          r := r + [RepoEntry(repos[i].name, prs.value)];
          i := i + 1;
        }
        if i == |repos| {
          assert repos[..|repos|] == repos;
        }
      }
      orgPrs := orgPrs[org := r];
    }
  }

  /** Once a repository has failed, the later ones are not read. */
  lemma {:induction false} GatherFailedSticks(org: string, repos: seq<RepoSource>, i: nat, useCache: bool,
                                              cutoff: int, parse: string -> Option<int>)
    requires i <= |repos|
    requires Gather(org, repos[..i], useCache, cutoff, parse).failed
    ensures Gather(org, repos, useCache, cutoff, parse) == Gather(org, repos[..i], useCache, cutoff, parse)
    decreases |repos| - i
  {
    if i == |repos| {
      assert repos[..i] == repos;
    } else {
      GatherSnoc(org, repos, i, useCache, cutoff, parse);
      GatherFailedSticks(org, repos, i + 1, useCache, cutoff, parse);
    }
  }

  /** Adds one organisation's entries to the dict under `org/repo` keys, in entry order. */
  function AddEntries(m: map<string, seq<PullRequest>>, org: string, entries: seq<RepoEntry>)
    : map<string, seq<PullRequest>>
  {
    if entries == [] then m
    else
      var last := entries[|entries| - 1];
      AddEntries(m, org, entries[..|entries| - 1])[RepoPath(org, last.name) := last.prs]
  }

  /** The dict `fetch_all_org_prs` returns, from the memo entries of the organisations. */
  function AllPrsOf(orgs: seq<string>, memo: map<string, seq<RepoEntry>>): map<string, seq<PullRequest>>
    requires forall o :: o in orgs ==> o in memo
  {
    if orgs == [] then map[]
    else
      var o := orgs[|orgs| - 1];
      AddEntries(AllPrsOf(orgs[..|orgs| - 1], memo), o, memo[o])
  }

  /** Every key of the dict is `org/repo` for a listed organisation and one of its stored
      repositories, and that repository's PRs are the value; every such pair has its key. */
  ghost predicate KeyedBy(all: map<string, seq<PullRequest>>, orgs: seq<string>,
                          memo: map<string, seq<RepoEntry>>)
    requires forall o :: o in orgs ==> o in memo
  {
    && (forall o, e :: o in orgs && e in memo[o] ==> RepoPath(o, e.name) in all)
    && (forall k :: k in all ==>
          exists o, e :: o in orgs && e in memo[o] && k == RepoPath(o, e.name) && all[k] == e.prs)
  }

  lemma {:induction false} AddEntriesKeys(m: map<string, seq<PullRequest>>, org: string, entries: seq<RepoEntry>)
    ensures forall e :: e in entries ==> RepoPath(org, e.name) in AddEntries(m, org, entries)
    ensures forall k :: k in AddEntries(m, org, entries) ==>
              (k in m && AddEntries(m, org, entries)[k] == m[k])
              || exists e :: e in entries && k == RepoPath(org, e.name) && AddEntries(m, org, entries)[k] == e.prs
  {
    if entries != [] {
      var init := entries[..|entries| - 1];
      AddEntriesKeys(m, org, init);
      SplitLast(entries);
    }
  }

  /** The keys of the combined dict are exactly the `org/repo` paths, each holding the PRs of
      a repository with that path. */
  lemma {:induction false} AllPrsKeyed(orgs: seq<string>, memo: map<string, seq<RepoEntry>>)
    requires forall o :: o in orgs ==> o in memo
    ensures KeyedBy(AllPrsOf(orgs, memo), orgs, memo)
  {
    if orgs != [] {
      var init, o := orgs[..|orgs| - 1], orgs[|orgs| - 1];
      assert forall x :: x in init ==> x in orgs;
      AllPrsKeyed(init, memo);
      var m := AllPrsOf(init, memo);
      AddEntriesKeys(m, o, memo[o]);
      AddEntriesKeep(m, o, memo[o]);
      SplitLast(orgs);
    }
  }

  /** Adding entries never removes a key. */
  lemma {:induction false} AddEntriesKeep(m: map<string, seq<PullRequest>>, org: string, entries: seq<RepoEntry>)
    ensures m.Keys <= AddEntries(m, org, entries).Keys
  {
    if entries != [] {
      AddEntriesKeep(m, org, entries[..|entries| - 1]);
    }
  }

  /** The memo m' extends m with entries, fetched from `listings`, only for organisations
      in orgs. */
  ghost predicate MemoExtends(m: map<string, seq<RepoEntry>>, m': map<string, seq<RepoEntry>>,
                              orgs: seq<string>, listings: string -> Option<seq<RepoSource>>,
                              useCache: bool, cutoff: int, parse: string -> Option<int>)
  {
    && (forall o :: o in m ==> o in m' && m'[o] == m[o])
    && (forall o :: o in m' && o !in m ==>
          o in orgs && m'[o] == OrgPrsOf(o, listings(o), useCache, cutoff, parse))
  }

  /** `fetch_all_org_prs`: every configured organisation through the shared memo, its
      repositories stored in the result under `org/repo`. `listings` gives, per
      organisation, what the repository listing yields (None when it raises). */
  method FetchAllOrgPrs(cache: OrgPrCache, orgs: seq<string>, listings: string -> Option<seq<RepoSource>>,
                        useCache: bool, cutoff: int, parse: string -> Option<int>)
    returns (all: map<string, seq<PullRequest>>)
    modifies cache
    ensures forall o :: o in orgs ==> o in cache.orgPrs
    ensures MemoExtends(old(cache.orgPrs), cache.orgPrs, orgs, listings, useCache, cutoff, parse)
    ensures all == AllPrsOf(orgs, cache.orgPrs)
  {
    all := map[];
    for i := 0 to |orgs|
      invariant forall o :: o in orgs[..i] ==> o in cache.orgPrs
      invariant MemoExtends(old(cache.orgPrs), cache.orgPrs, orgs[..i], listings, useCache, cutoff, parse)
      invariant all == AllPrsOf(orgs[..i], cache.orgPrs)
    {
      ghost var before := cache.orgPrs;
      var orgPrs := cache.FetchOrgPrs(orgs[i], listings(orgs[i]), useCache, cutoff, parse);
      OrgStep(old(cache.orgPrs), before, cache.orgPrs, orgs, i, listings, useCache, cutoff, parse);
      AllPrsStable(orgs[..i], before, cache.orgPrs);
      all := AddOrg(all, orgs[i], orgPrs);
      assert orgs[..i + 1][..i] == orgs[..i];
    }
    assert orgs[..|orgs|] == orgs;
  }

  /** The inner loop of `fetch_all_org_prs`. */
  method AddOrg(all: map<string, seq<PullRequest>>, org: string, entries: seq<RepoEntry>)
    returns (all': map<string, seq<PullRequest>>)
    ensures all' == AddEntries(all, org, entries)
  {
    all' := all;
    for j := 0 to |entries|
      invariant all' == AddEntries(all, org, entries[..j])
    {
      assert entries[..j + 1][..j] == entries[..j];
      all' := all'[RepoPath(org, entries[j].name) := entries[j].prs];
    }
    assert entries[..|entries|] == entries;
  }

  /** One turn of the organisation loop: the memo grows only by the organisation fetched. */
  lemma OrgStep(m0: map<string, seq<RepoEntry>>, m: map<string, seq<RepoEntry>>,
                m': map<string, seq<RepoEntry>>, orgs: seq<string>, i: nat,
                listings: string -> Option<seq<RepoSource>>, useCache: bool, cutoff: int,
                parse: string -> Option<int>)
    requires i < |orgs|
    requires forall o :: o in orgs[..i] ==> o in m
    requires MemoExtends(m0, m, orgs[..i], listings, useCache, cutoff, parse)
    requires orgs[i] in m ==> m' == m
    requires orgs[i] !in m ==> m' == m[orgs[i] := OrgPrsOf(orgs[i], listings(orgs[i]), useCache, cutoff, parse)]
    ensures forall o :: o in orgs[..i + 1] ==> o in m'
    ensures MemoExtends(m0, m', orgs[..i + 1], listings, useCache, cutoff, parse)
  {
    PrefixSnoc(orgs, i);
    assert forall o :: o in orgs[..i + 1] <==> o in orgs[..i] || o == orgs[i];
  }

  lemma {:induction false} AllPrsStable(orgs: seq<string>, m: map<string, seq<RepoEntry>>,
                                        m': map<string, seq<RepoEntry>>)
    requires forall o :: o in orgs ==> o in m
    requires forall o :: o in m ==> o in m' && m'[o] == m[o]
    ensures forall o :: o in orgs ==> o in m'
    ensures AllPrsOf(orgs, m) == AllPrsOf(orgs, m')
  {
    if orgs != [] {
      AllPrsStable(orgs[..|orgs| - 1], m, m');
    }
  }
}

/** Pull-request metrics: the derived fields of one PR (time open, time to first review,
    distinct reviewers, size), the CSV export of every PR with its metrics and its reading
    back behind an mtime cache, and the per-repository figures read from the export: the
    monthly rollup on the `created_at[:7]` key and the overall state summary. Timestamps
    are read by a parse function to whole seconds that may fail; the clock is the `now`
    parameter. */
module PrProcessor {
  import opened Base
  import opened Grouping
  import opened Sorting
  import opened Stats
  import opened PrFetcher

  /** Hours from one instant to another, as `(end - start).total_seconds() / 3600`. */
  function HoursBetween(start: int, end: int): real {
    (end - start) as real / 3600.0
  }

  /** The end of the time a PR was open: the merge time if present, else the close time,
      else the time it is now. */
  function OpenUntil(pr: PullRequest, parse: string -> Option<int>, now: int): Option<int> {
    if Truthy(pr.mergedAt) then parse(pr.mergedAt.value)
    else if Truthy(pr.closedAt) then parse(pr.closedAt.value)
    else Some(now)
  }

  /** `time_open_hours`: None without a creation time, otherwise the hours from creation to
      `OpenUntil`; a timestamp that does not parse raises. */
  function TimeOpen(pr: PullRequest, parse: string -> Option<int>, now: int): Result<Option<real>> {
    if !Truthy(pr.createdAt) then Ok(None)
    else
      var created := parse(pr.createdAt.value);
      var end := OpenUntil(pr, parse, now);
      if created.None? || end.None? then Err(BadTimestamp)
      else Ok(Some(HoursBetween(created.value, end.value)))
  }

  predicate Submitted(r: Review) {
    Truthy(r.submittedAt)
  }

  function SubmittedAt(r: Review): string {
    OrEmpty(r.submittedAt)
  }

  /** The reviews with a submission time, in order. */
  function ValidReviews(rs: seq<Review>): seq<Review> {
    if rs == [] then []
    else ValidReviews(rs[..|rs| - 1]) + (if Submitted(rs[|rs| - 1]) then [rs[|rs| - 1]] else [])
  }

  /** `time_to_first_review_hours`: None without reviews, without a creation time or
      without a submitted review; otherwise the hours from creation to the first review
      after a stable sort on the submission time. */
  function TimeToFirstReview(pr: PullRequest, parse: string -> Option<int>): Result<Option<real>> {
    var valid := ValidReviews(pr.reviews);
    if pr.reviews == [] || !Truthy(pr.createdAt) || valid == [] then Ok(None)
    else
      var first := SortBy(valid, SubmittedAt)[0];
      var reviewed := parse(SubmittedAt(first));
      var created := parse(pr.createdAt.value);
      if reviewed.None? || created.None? then Err(BadTimestamp)
      else Ok(Some(HoursBetween(created.value, reviewed.value)))
  }

  /** The distinct non-empty review authors. */
  function Reviewers(rs: seq<Review>): set<string> {
    set r | r in rs && r.author != "" :: r.author
  }

  /** A PR with its derived fields; the PR itself is carried unchanged. */
  datatype PrMetrics = PrMetrics(
    pr: PullRequest,
    timeOpenHours: Option<real>,
    timeToFirstReviewHours: Option<real>,
    reviewerCount: nat,
    size: int)

  /** `calculate_pr_metrics`. */
  function CalculatePrMetrics(pr: PullRequest, parse: string -> Option<int>, now: int): Result<PrMetrics> {
    var open := TimeOpen(pr, parse, now);
    var review := TimeToFirstReview(pr, parse);
    if open.Err? then Err(open.message)
    else if review.Err? then Err(review.message)
    else Ok(PrMetrics(pr, open.value, review.value, |Reviewers(pr.reviews)|, pr.additions + pr.deletions))
  }

  lemma {:induction false} ValidReviewsExact(rs: seq<Review>, r: Review)
    ensures r in ValidReviews(rs) <==> r in rs && Submitted(r)
  {
    if rs != [] {
      ValidReviewsExact(rs[..|rs| - 1], r);
      SplitLast(rs);
    }
  }

  /** Time open: None exactly without a creation time; with one, measured to the merge
      time, else the close time, else now; an error only when one of the timestamps read
      does not parse. */
  lemma TimeOpenCases(pr: PullRequest, parse: string -> Option<int>, now: int)
    ensures TimeOpen(pr, parse, now) == Ok(None) <==> !Truthy(pr.createdAt)
    ensures Truthy(pr.createdAt) && Truthy(pr.mergedAt)
            && parse(pr.createdAt.value).Some? && parse(pr.mergedAt.value).Some?
            ==> TimeOpen(pr, parse, now)
                == Ok(Some(HoursBetween(parse(pr.createdAt.value).value, parse(pr.mergedAt.value).value)))
    ensures Truthy(pr.createdAt) && !Truthy(pr.mergedAt) && Truthy(pr.closedAt)
            && parse(pr.createdAt.value).Some? && parse(pr.closedAt.value).Some?
            ==> TimeOpen(pr, parse, now)
                == Ok(Some(HoursBetween(parse(pr.createdAt.value).value, parse(pr.closedAt.value).value)))
    ensures Truthy(pr.createdAt) && !Truthy(pr.mergedAt) && !Truthy(pr.closedAt)
            && parse(pr.createdAt.value).Some?
            ==> TimeOpen(pr, parse, now) == Ok(Some(HoursBetween(parse(pr.createdAt.value).value, now)))
    ensures TimeOpen(pr, parse, now).Err? <==>
              Truthy(pr.createdAt)
              && (parse(pr.createdAt.value).None?
                  || (Truthy(pr.mergedAt) && parse(pr.mergedAt.value).None?)
                  || (!Truthy(pr.mergedAt) && Truthy(pr.closedAt) && parse(pr.closedAt.value).None?))
  {
  }

  /** The first review is a submitted review of the PR whose submission time is the
      smallest in string order. */
  lemma FirstReviewIsEarliest(rs: seq<Review>)
    requires ValidReviews(rs) != []
    ensures var first := SortBy(ValidReviews(rs), SubmittedAt)[0];
            && first in rs && Submitted(first)
            && forall r :: r in rs && Submitted(r) ==> StrLe(SubmittedAt(first), SubmittedAt(r))
  {
    var valid := ValidReviews(rs);
    var sorted := SortBy(valid, SubmittedAt);
    SortByElems(valid, SubmittedAt);
    SortBySorted(valid, SubmittedAt);
    assert sorted[0] in multiset(sorted);
    ValidReviewsExact(rs, sorted[0]);
    forall r | r in rs && Submitted(r) ensures StrLe(SubmittedAt(sorted[0]), SubmittedAt(r)) {
      ValidReviewsExact(rs, r);
      assert r in multiset(sorted);
      var k :| 0 <= k < |sorted| && sorted[k] == r;
      if k > 0 {
        assert SubmittedAt(sorted[0]) == SubmittedAt(sorted[0]);
      }
    }
  }

  /** Time to first review: None exactly without reviews, a creation time or a submitted
      review; otherwise the hours from creation to the earliest submission. */
  lemma TimeToFirstReviewCases(pr: PullRequest, parse: string -> Option<int>)
    ensures TimeToFirstReview(pr, parse) == Ok(None) <==>
              !Truthy(pr.createdAt) || forall r :: r in pr.reviews ==> !Submitted(r)
    ensures TimeToFirstReview(pr, parse).Ok? && TimeToFirstReview(pr, parse).value.Some? ==>
              exists r :: r in pr.reviews && Submitted(r)
                          && (forall r' :: r' in pr.reviews && Submitted(r') ==> StrLe(SubmittedAt(r), SubmittedAt(r')))
                          && parse(SubmittedAt(r)).Some? && parse(pr.createdAt.value).Some?
                          && TimeToFirstReview(pr, parse).value.value
                             == HoursBetween(parse(pr.createdAt.value).value, parse(SubmittedAt(r)).value)
  {
    var valid := ValidReviews(pr.reviews);
    if valid != [] {
      FirstReviewIsEarliest(pr.reviews);
      assert valid[0] in valid;
      ValidReviewsExact(pr.reviews, valid[0]);
    } else {
      forall r | r in pr.reviews ensures !Submitted(r) {
        ValidReviewsExact(pr.reviews, r);
      }
    }
  }

  /** The reviewer count counts each non-empty author once: never more than the reviews,
      and zero exactly when no review has an author. */
  lemma {:induction false} ReviewerCountBounds(rs: seq<Review>)
    ensures |Reviewers(rs)| <= |rs|
    ensures |Reviewers(rs)| == 0 <==> forall r :: r in rs ==> r.author == ""
  {
    if rs != [] {
      var init, last := rs[..|rs| - 1], rs[|rs| - 1];
      ReviewerCountBounds(init);
      SplitLast(rs);
      assert Reviewers(rs) == Reviewers(init) + (if last.author != "" then {last.author} else {});
      if last.author != "" {
        assert last.author in Reviewers(rs);
      }
    }
  }

  /** The metrics copy the PR, the size is additions plus deletions, and they fail exactly
      when one of the two timings does. */
  lemma MetricsOfPr(pr: PullRequest, parse: string -> Option<int>, now: int)
    ensures CalculatePrMetrics(pr, parse, now).Ok? <==>
              TimeOpen(pr, parse, now).Ok? && TimeToFirstReview(pr, parse).Ok?
    ensures CalculatePrMetrics(pr, parse, now).Ok? ==>
              var m := CalculatePrMetrics(pr, parse, now).value;
              && m.pr == pr && m.size == pr.additions + pr.deletions
              && m.reviewerCount <= |pr.reviews|
              && m.timeOpenHours == TimeOpen(pr, parse, now).value
              && m.timeToFirstReviewHours == TimeToFirstReview(pr, parse).value
  {
    ReviewerCountBounds(pr.reviews);
  }

  const MaxTitle := 200

  /** One row of the PR export. Text columns hold "" for None; a numeric column is None
      when its cell is empty. */
  datatype ExportRow = ExportRow(
    repository: string,
    prNumber: Option<int>,
    title: string,
    author: string,
    state: string,
    createdAt: string,
    closedAt: string,
    mergedAt: string,
    timeOpenHours: Option<real>,
    timeToFirstReviewHours: Option<real>,
    reviewerCount: Option<int>,
    additions: Option<int>,
    deletions: Option<int>,
    changedFiles: Option<int>)

  /** The row written for a PR of a repository: the title cut to 200 characters. */
  function RowOf(repository: string, m: PrMetrics): ExportRow {
    ExportRow(repository, Some(m.pr.number), Take(m.pr.title, MaxTitle), m.pr.author, OrEmpty(m.pr.state),
              OrEmpty(m.pr.createdAt), OrEmpty(m.pr.closedAt), OrEmpty(m.pr.mergedAt), m.timeOpenHours,
              m.timeToFirstReviewHours, Some(m.reviewerCount), Some(m.pr.additions), Some(m.pr.deletions),
              Some(m.pr.changedFiles))
  }

  /** The PRs of one repository, under the `org/repo` name their file was found under. */
  datatype RepositoryFile = RepositoryFile(repository: string, prs: seq<PullRequest>)

  /** The rows of the PRs of some repositories, or the error of the first PR whose
      metrics cannot be computed. */
  function ExportRows(files: seq<RepositoryFile>, parse: string -> Option<int>, now: int): Result<seq<ExportRow>> {
    if files == [] then Ok([])
    else
      var front := ExportRows(files[..|files| - 1], parse, now);
      var last := RepoRows(files[|files| - 1], parse, now);
      if front.Err? then front
      else if last.Err? then last
      else Ok(front.value + last.value)
  }

  function RepoRows(file: RepositoryFile, parse: string -> Option<int>, now: int): Result<seq<ExportRow>> {
    PrRows(file.repository, file.prs, parse, now)
  }

  function PrRows(repository: string, prs: seq<PullRequest>, parse: string -> Option<int>, now: int)
    : Result<seq<ExportRow>>
  {
    if prs == [] then Ok([])
    else
      var front := PrRows(repository, prs[..|prs| - 1], parse, now);
      var m := CalculatePrMetrics(prs[|prs| - 1], parse, now);
      if front.Err? then front
      else if m.Err? then Err(m.message)
      else Ok(front.value + [RowOf(repository, m.value)])
  }

  /** The loops of `build_pr_export`: one row per PR, repository by repository; a PR whose
      metrics raise aborts the export. */
  method BuildPrExport(files: seq<RepositoryFile>, parse: string -> Option<int>, now: int)
    returns (rows: Result<seq<ExportRow>>)
    ensures rows == ExportRows(files, parse, now)
  {
    var acc: seq<ExportRow> := [];
    for i := 0 to |files|
      invariant ExportRows(files[..i], parse, now) == Ok(acc)
    {
      assert files[..i + 1][..i] == files[..i];
      var repoRows := BuildRepoRows(files[i].repository, files[i].prs, parse, now);
      if repoRows.Err? {
        ExportErrSticks(files, i + 1, parse, now);
        return repoRows;
      }
      acc := acc + repoRows.value;
    }
    assert files[..|files|] == files;
    rows := Ok(acc);
  }

  /** The inner loop over one repository's PRs. */
  method BuildRepoRows(repository: string, prs: seq<PullRequest>, parse: string -> Option<int>, now: int)
    returns (rows: Result<seq<ExportRow>>)
    ensures rows == PrRows(repository, prs, parse, now)
  {
    var acc: seq<ExportRow> := [];
    for j := 0 to |prs|
      invariant PrRows(repository, prs[..j], parse, now) == Ok(acc)
    {
      assert prs[..j + 1][..j] == prs[..j];
      var m := CalculatePrMetrics(prs[j], parse, now);
      if m.Err? {
        PrRowsErrSticks(repository, prs, j + 1, parse, now);
        return Err(m.message);
      }
      acc := acc + [RowOf(repository, m.value)];
    }
    assert prs[..|prs|] == prs;
    rows := Ok(acc);
  }

  lemma {:induction false} ExportErrSticks(files: seq<RepositoryFile>, i: nat, parse: string -> Option<int>, now: int)
    requires i <= |files| && ExportRows(files[..i], parse, now).Err?
    ensures ExportRows(files, parse, now) == ExportRows(files[..i], parse, now)
    decreases |files| - i
  {
    if i == |files| {
      assert files[..i] == files;
    } else {
      assert files[..i + 1][..i] == files[..i];
      ExportErrSticks(files, i + 1, parse, now);
    }
  }

  lemma {:induction false} PrRowsErrSticks(repository: string, prs: seq<PullRequest>, j: nat,
                                           parse: string -> Option<int>, now: int)
    requires j <= |prs| && PrRows(repository, prs[..j], parse, now).Err?
    ensures PrRows(repository, prs, parse, now) == PrRows(repository, prs[..j], parse, now)
    decreases |prs| - j
  {
    if j == |prs| {
      assert prs[..j] == prs;
    } else {
      assert prs[..j + 1][..j] == prs[..j];
      PrRowsErrSticks(repository, prs, j + 1, parse, now);
    }
  }

  /** A successful export has one row per PR, each naming the repository it was filed
      under, with a title of at most 200 characters that begins the PR's title. */
  lemma {:induction false} PrRowsShape(repository: string, prs: seq<PullRequest>, parse: string -> Option<int>, now: int)
    requires PrRows(repository, prs, parse, now).Ok?
    ensures var rows := PrRows(repository, prs, parse, now).value;
            && |rows| == |prs|
            && forall k :: 0 <= k < |rows| ==>
                 rows[k].repository == repository && rows[k].prNumber == Some(prs[k].number)
                 && |rows[k].title| <= MaxTitle && IsPrefix(rows[k].title, prs[k].title)
                 && (|prs[k].title| <= MaxTitle ==> rows[k].title == prs[k].title)
  {
    if prs != [] {
      var init := prs[..|prs| - 1];
      PrRowsShape(repository, init, parse, now);
      var rows := PrRows(repository, prs, parse, now).value;
      var front := PrRows(repository, init, parse, now).value;
      forall k | 0 <= k < |rows|
        ensures rows[k].repository == repository && rows[k].prNumber == Some(prs[k].number)
                && |rows[k].title| <= MaxTitle && IsPrefix(rows[k].title, prs[k].title)
                && (|prs[k].title| <= MaxTitle ==> rows[k].title == prs[k].title)
      {
        if k < |front| {
          assert rows[k] == front[k] && prs[k] == init[k];
        }
      }
    }
  }

  /** A PR as read back from the export. */
  datatype PrRecord = PrRecord(
    repository: string,
    prNumber: Option<int>,
    title: string,
    author: string,
    state: string,
    createdAt: string,
    closedAt: Option<string>,
    mergedAt: Option<string>,
    timeOpenHours: Option<real>,
    timeToFirstReviewHours: Option<real>,
    reviewerCount: int,
    additions: int,
    deletions: int,
    changedFiles: int)

  function NonEmpty(cell: string): Option<string> {
    if cell == "" then None else Some(cell)
  }

  function IntOr(cell: Option<int>, default: int): int {
    if cell.Some? then cell.value else default
  }

  /** The conversion of one row in `load_pr_export`: empty dates become None and empty
      counts become 0. */
  function RecordOf(row: ExportRow): PrRecord {
    PrRecord(row.repository, row.prNumber, row.title, row.author, row.state, row.createdAt,
             NonEmpty(row.closedAt), NonEmpty(row.mergedAt), row.timeOpenHours, row.timeToFirstReviewHours,
             IntOr(row.reviewerCount, 0), IntOr(row.additions, 0), IntOr(row.deletions, 0),
             IntOr(row.changedFiles, 0))
  }

  function RecordsOf(rows: seq<ExportRow>): seq<PrRecord> {
    seq(|rows|, i requires 0 <= i < |rows| => RecordOf(rows[i]))
  }

  /** The row loop of `load_pr_export`. */
  method ReadRows(rows: seq<ExportRow>) returns (prs: seq<PrRecord>)
    ensures prs == RecordsOf(rows)
  {
    prs := [];
    for i := 0 to |rows|
      invariant prs == RecordsOf(rows[..i])
    {
      var row := rows[i];
      var pr := PrRecord(row.repository, row.prNumber, row.title, row.author, row.state, row.createdAt,
                         if row.closedAt != "" then Some(row.closedAt) else None,
                         if row.mergedAt != "" then Some(row.mergedAt) else None,
                         row.timeOpenHours, row.timeToFirstReviewHours,
                         if row.reviewerCount.Some? then row.reviewerCount.value else 0,
                         if row.additions.Some? then row.additions.value else 0,
                         if row.deletions.Some? then row.deletions.value else 0,
                         if row.changedFiles.Some? then row.changedFiles.value else 0);
      prs := prs + [pr];
    }
  }

  /** Export then read back: every metric and count survives; the title is the cut title;
      a missing or empty state or creation time becomes "", a missing or empty close or
      merge time becomes None. */
  lemma ReadWrittenRow(repository: string, m: PrMetrics)
    ensures var r := RecordOf(RowOf(repository, m));
            && r.repository == repository && r.prNumber == Some(m.pr.number)
            && r.title == Take(m.pr.title, MaxTitle) && r.author == m.pr.author
            && r.state == OrEmpty(m.pr.state) && r.createdAt == OrEmpty(m.pr.createdAt)
            && (r.closedAt.Some? <==> Truthy(m.pr.closedAt)) && (r.closedAt.Some? ==> r.closedAt == m.pr.closedAt)
            && (r.mergedAt.Some? <==> Truthy(m.pr.mergedAt)) && (r.mergedAt.Some? ==> r.mergedAt == m.pr.mergedAt)
            && r.timeOpenHours == m.timeOpenHours && r.timeToFirstReviewHours == m.timeToFirstReviewHours
            && r.reviewerCount == m.reviewerCount && r.additions == m.pr.additions
            && r.deletions == m.pr.deletions && r.changedFiles == m.pr.changedFiles
  {
  }

  /** The export file as the reader sees it: its modification time and its rows. */
  datatype ExportFile = ExportFile(mtime: int, rows: seq<ExportRow>)

  /** The module-level cache of `load_pr_export` (`_pr_cache`, `_pr_cache_mtime`). */
  class PrExportCache {
    var cache: Option<seq<PrRecord>>
    var cacheMtime: Option<int>

    constructor()
      ensures cache == None && cacheMtime == None
    {
      cache := None;
      cacheMtime := None;
    }

    /** `load_pr_export`: no file gives no PRs and leaves the cache alone; a cache filled at
        the file's current mtime is returned as it is; otherwise the rows are read and
        cached with that mtime. */
    method LoadPrExport(file: Option<ExportFile>) returns (prs: seq<PrRecord>)
      modifies this
      ensures file.None? ==> prs == [] && cache == old(cache) && cacheMtime == old(cacheMtime)
      ensures file.Some? && old(cache).Some? && old(cacheMtime) == Some(file.value.mtime) ==>
                prs == old(cache).value && cache == old(cache) && cacheMtime == old(cacheMtime)
      ensures file.Some? && !(old(cache).Some? && old(cacheMtime) == Some(file.value.mtime)) ==>
                prs == RecordsOf(file.value.rows) && cache == Some(prs) && cacheMtime == Some(file.value.mtime)
    {
      if file.None? {
        return [];
      }
      var currentMtime := file.value.mtime;
      if cache.Some? && cacheMtime == Some(currentMtime) {
        return cache.value;
      }
      prs := ReadRows(file.value.rows);
      cache := Some(prs);
      cacheMtime := Some(currentMtime);
    }
  }

  /** Reading the same file twice reads its rows once: the second call returns what the
      first cached. */
  method LoadTwice(c: PrExportCache, file: ExportFile) returns (first: seq<PrRecord>, second: seq<PrRecord>)
    modifies c
    ensures second == first
    ensures old(c.cache).Some? && old(c.cacheMtime) == Some(file.mtime) ==> first == old(c.cache).value
    ensures !(old(c.cache).Some? && old(c.cacheMtime) == Some(file.mtime)) ==> first == RecordsOf(file.rows)
  {
    first := c.LoadPrExport(Some(file));
    second := c.LoadPrExport(Some(file));
  }

  function Repository(p: PrRecord): string { p.repository }

  /** `get_repository_prs`: the PRs of one repository, in export order. */
  function RepositoryPrs(prs: seq<PrRecord>, repository: string): seq<PrRecord> {
    Bucket(prs, Repository, repository)
  }

  /** `get_all_repositories`: the repositories of the export, sorted, once each. */
  function AllRepositories(prs: seq<PrRecord>): seq<string> {
    SortStrings(FirstSeenKeys(prs, Repository))
  }

  lemma AllRepositoriesExact(prs: seq<PrRecord>)
    ensures StrictlySorted(AllRepositories(prs))
    ensures forall r :: r in AllRepositories(prs) <==> exists p :: p in prs && p.repository == r
  {
    SortedKeys(prs, Repository);
  }

  /** The month of a PR: the first seven characters of its creation time. */
  function PrMonth(p: PrRecord): string { Take(p.createdAt, 7) }

  /** The PRs the monthly rollup counts: those with a creation time. */
  function Dated(prs: seq<PrRecord>): seq<PrRecord> {
    if prs == [] then []
    else Dated(prs[..|prs| - 1]) + (if prs[|prs| - 1].createdAt != "" then [prs[|prs| - 1]] else [])
  }

  function TimeOpenSample(p: PrRecord): seq<real> {
    if p.timeOpenHours.Some? then [p.timeOpenHours.value] else []
  }

  function ReviewSample(p: PrRecord): seq<real> {
    if p.timeToFirstReviewHours.Some? then [p.timeToFirstReviewHours.value] else []
  }

  function ReviewerCountOf(p: PrRecord): seq<real> { [p.reviewerCount as real] }

  function AdditionsOf(p: PrRecord): seq<real> { [p.additions as real] }

  function DeletionsOf(p: PrRecord): seq<real> { [p.deletions as real] }

  function MeanOrNone(s: seq<real>): Option<real> {
    if s == [] then None else Some(Mean(s))
  }

  function MedianOrNone(s: seq<real>): Option<real> {
    if s == [] then None else Some(Median(s))
  }

  function MeanOrZero(s: seq<real>): real {
    if s == [] then 0.0 else Mean(s)
  }

  /** One month of `aggregate_prs_by_month`. */
  datatype MonthSummary = MonthSummary(
    month: string,
    prCount: nat,
    avgTimeOpenHours: Option<real>,
    medianTimeOpenHours: Option<real>,
    avgTimeToFirstReviewHours: Option<real>,
    avgReviewerCount: real,
    avgAdditions: real,
    avgDeletions: real)

  /** The figures of one month's PRs: timing averages and the median over the PRs that have
      the timing, count averages over all of them. */
  function SummaryOf(month: string, b: seq<PrRecord>): MonthSummary {
    var open := FlatMap(b, TimeOpenSample);
    MonthSummary(month, |b|, MeanOrNone(open), MedianOrNone(open), MeanOrNone(FlatMap(b, ReviewSample)),
                 MeanOrZero(FlatMap(b, ReviewerCountOf)), MeanOrZero(FlatMap(b, AdditionsOf)),
                 MeanOrZero(FlatMap(b, DeletionsOf)))
  }

  /** The summary of one month of the groups. */
  function MonthSummaryIn(groups: map<string, seq<PrRecord>>): string -> seq<MonthSummary> {
    m => if m in groups then [SummaryOf(m, groups[m])] else []
  }

  /** The summaries of the given months, in that order: the i-th is the figures of the
      i-th month's PRs. */
  function Summaries(groups: map<string, seq<PrRecord>>, months: seq<string>): (r: seq<MonthSummary>)
    requires forall m :: m in months ==> m in groups
    ensures |r| == |months|
    ensures forall i :: 0 <= i < |r| ==> months[i] in groups && r[i] == SummaryOf(months[i], groups[months[i]])
  {
    assert forall i :: 0 <= i < |months| ==> months[i] in months;
    FlatMapSingletons(months, MonthSummaryIn(groups));
    FlatMap(months, MonthSummaryIn(groups))
  }

  /** The months of the dated PRs, ascending. */
  function Months(prs: seq<PrRecord>): seq<string> {
    SortStrings(FirstSeenKeys(Dated(prs), PrMonth))
  }

  /** `aggregate_prs_by_month`, as the values of its dict in insertion order. */
  function MonthlySummaries(prs: seq<PrRecord>): seq<MonthSummary>
  {
    MonthsInBuckets(prs);
    Summaries(Buckets(Dated(prs), PrMonth), Months(prs))
  }

  lemma MonthsInBuckets(prs: seq<PrRecord>)
    ensures forall m :: m in Months(prs) ==> m in Buckets(Dated(prs), PrMonth)
  {
    var ks := KeyList(Dated(prs), PrMonth);
    SortByElems(Distinct(ks), Identity);
    DistinctElems(ks);
    KeyListElems(Dated(prs), PrMonth);
  }

  lemma DatedSnoc(prs: seq<PrRecord>, i: nat)
    requires i < |prs|
    ensures Dated(prs[..i + 1]) == Dated(prs[..i]) + (if prs[i].createdAt != "" then [prs[i]] else [])
  {
    assert prs[..i + 1][..i] == prs[..i];
  }

  /** The grouping loop of `aggregate_prs_by_month`: the dated PRs by month, and the months
      in order of first appearance. */
  method GroupByMonth(prs: seq<PrRecord>) returns (groups: map<string, seq<PrRecord>>, order: seq<string>)
    ensures groups == Buckets(Dated(prs), PrMonth)
    ensures order == FirstSeenKeys(Dated(prs), PrMonth)
  {
    groups, order := map[], [];
    for i := 0 to |prs|
      invariant groups == Buckets(Dated(prs[..i]), PrMonth)
      invariant order == FirstSeenKeys(Dated(prs[..i]), PrMonth)
    {
      var pr := prs[i];
      ghost var dated := Dated(prs[..i]);
      DatedSnoc(prs, i);
      if pr.createdAt == "" {
        assert dated + [] == dated;
        continue;
      }
      var month := Take(pr.createdAt, 7);
      BucketsSnoc(dated, pr, PrMonth);
      FirstSeenKeysSnoc(dated, pr, PrMonth);
      var monthPrs := if month in groups then groups[month] else [];
      if month !in groups {
        order := order + [month];
      }
      groups := groups[month := monthPrs + [pr]];
    }
    assert prs[..|prs|] == prs;
  }

  /** `aggregate_prs_by_month`: the months in ascending order, each with its figures. */
  method AggregatePrsByMonth(prs: seq<PrRecord>) returns (result: seq<MonthSummary>)
    ensures result == MonthlySummaries(prs)
  {
    var groups, order := GroupByMonth(prs);
    var months := SortStrings(order);
    MonthsInBuckets(prs);
    result := SummariesInOrder(groups, months);
  }

  /** The loop over `sorted(monthly_data.items())`. */
  method SummariesInOrder(groups: map<string, seq<PrRecord>>, months: seq<string>) returns (result: seq<MonthSummary>)
    requires forall m :: m in months ==> m in groups
    ensures result == Summaries(groups, months)
  {
    ghost var f := MonthSummaryIn(groups);
    result := [];
    for j := 0 to |months|
      invariant result == FlatMap(months[..j], f)
    {
      var month := months[j];
      FlatMapPrefixSnoc(months, j, f);
      assert month in months;
      assert f(month) == [SummaryOf(month, groups[month])];
      result := result + [SummaryOf(month, groups[month])];
    }
    assert months[..|months|] == months;
  }

  lemma {:induction false} DatedExact(prs: seq<PrRecord>, p: PrRecord)
    ensures p in Dated(prs) <==> p in prs && p.createdAt != ""
  {
    if prs != [] {
      DatedExact(prs[..|prs| - 1], p);
      SplitLast(prs);
    }
  }

  /** The months come out strictly ascending, and a month is listed exactly when a PR with a
      creation time was created in it. */
  lemma MonthsExact(prs: seq<PrRecord>)
    ensures StrictlySorted(Months(prs))
    ensures forall m :: m in Months(prs) <==> exists p :: p in prs && p.createdAt != "" && PrMonth(p) == m
  {
    SortedKeys(Dated(prs), PrMonth);
    forall p ensures p in Dated(prs) <==> p in prs && p.createdAt != "" {
      DatedExact(prs, p);
    }
  }

  /** Each month's entry summarises exactly the dated PRs created in that month, in input
      order, and there is at least one of them. */
  lemma MonthlyEntries(prs: seq<PrRecord>)
    ensures var r := MonthlySummaries(prs);
            var months := Months(prs);
            && |r| == |months|
            && forall i :: 0 <= i < |r| ==>
                 r[i].month == months[i]
                 && r[i] == SummaryOf(months[i], Bucket(Dated(prs), PrMonth, months[i]))
                 && r[i].prCount > 0
  {
    var months := Months(prs);
    var groups := Buckets(Dated(prs), PrMonth);
    MonthsInBuckets(prs);
    forall i | 0 <= i < |months|
      ensures Summaries(groups, months)[i] == SummaryOf(months[i], Bucket(Dated(prs), PrMonth, months[i]))
      ensures Bucket(Dated(prs), PrMonth, months[i]) != []
    {
      assert months[i] in months;
      BucketNonEmptyIffKey(Dated(prs), PrMonth, months[i]);
    }
  }

  function PrCounts(r: seq<MonthSummary>): int {
    if r == [] then 0 else PrCounts(r[..|r| - 1]) + r[|r| - 1].prCount
  }

  /** Counts that are the sizes of the months' buckets add up to the bucket totals. */
  lemma {:induction false} CountsAreTotals(r: seq<MonthSummary>, months: seq<string>, dated: seq<PrRecord>)
    requires |r| == |months|
    requires forall i :: 0 <= i < |r| ==> r[i].prCount == |Bucket(dated, PrMonth, months[i])|
    ensures PrCounts(r) == BucketTotals(months, dated, PrMonth, One)
  {
    if r != [] {
      var n := |r| - 1;
      CountsAreTotals(r[..n], months[..n], dated);
      WeightOne(Bucket(dated, PrMonth, months[n]));
    }
  }

  lemma PrCountsAreBucketTotals(dated: seq<PrRecord>, months: seq<string>)
    requires forall m :: m in months ==> m in Buckets(dated, PrMonth)
    ensures PrCounts(Summaries(Buckets(dated, PrMonth), months)) == BucketTotals(months, dated, PrMonth, One)
  {
    var groups := Buckets(dated, PrMonth);
    var r := Summaries(groups, months);
    assert forall i :: 0 <= i < |r| ==> r[i].prCount == |Bucket(dated, PrMonth, months[i])|;
    CountsAreTotals(r, months, dated);
  }

  /** Conservation: the monthly counts add up to the number of PRs with a creation time. */
  lemma MonthlyCountsConserve(prs: seq<PrRecord>)
    ensures PrCounts(MonthlySummaries(prs)) == |Dated(prs)|
  {
    var dated := Dated(prs);
    var months := Months(prs);
    MonthsInBuckets(prs);
    PrCountsAreBucketTotals(dated, months);
    SortedKeys(dated, PrMonth);
    StrictlySortedNoDup(months);
    assert KeysOf(dated, PrMonth) <= Elems(months);
    BucketsPartition(months, dated, PrMonth, One);
    WeightOne(dated);
  }

  lemma {:induction false} FlatMapEmpty<T, U>(s: seq<T>, f: T -> seq<U>)
    ensures FlatMap(s, f) == [] <==> forall x :: x in s ==> f(x) == []
  {
    if s != [] {
      FlatMapEmpty(s[..|s| - 1], f);
      SplitLast(s);
    }
  }

  /** The timing figures of a month come only from the PRs that have them and are None
      exactly when none has. */
  lemma SummaryTimings(month: string, b: seq<PrRecord>)
    ensures SummaryOf(month, b).avgTimeOpenHours.None? <==> forall p :: p in b ==> p.timeOpenHours.None?
    ensures SummaryOf(month, b).medianTimeOpenHours.None? <==> forall p :: p in b ==> p.timeOpenHours.None?
    ensures SummaryOf(month, b).avgTimeToFirstReviewHours.None? <==>
              forall p :: p in b ==> p.timeToFirstReviewHours.None?
    ensures forall h :: h in FlatMap(b, TimeOpenSample) <==> exists p :: p in b && p.timeOpenHours == Some(h)
  {
    FlatMapEmpty(b, TimeOpenSample);
    FlatMapEmpty(b, ReviewSample);
    forall h ensures h in FlatMap(b, TimeOpenSample) <==> exists p :: p in b && p.timeOpenHours == Some(h) {
      FlatMapExact(b, TimeOpenSample, h);
    }
  }

  /** The average and the median of a month's times open lie between the smallest and the
      largest of them. */
  lemma SummaryTimeOpenBounds(month: string, b: seq<PrRecord>)
    requires FlatMap(b, TimeOpenSample) != []
    ensures var open := FlatMap(b, TimeOpenSample);
            && SummaryOf(month, b).avgTimeOpenHours == Some(Mean(open))
            && SummaryOf(month, b).medianTimeOpenHours == Some(Median(open))
            && Min(open) <= Mean(open) <= Max(open)
            && Min(open) <= Median(open) <= Max(open)
  {
    var open := FlatMap(b, TimeOpenSample);
    MeanBetweenMinAndMax(open);
    MedianBetweenMinAndMax(open);
  }

  /** The state counts of `get_repository_summary`. */
  function State(p: PrRecord): string { p.state }

  function CountState(prs: seq<PrRecord>, state: string): nat {
    |Bucket(prs, State, state)|
  }

  /** A PR the timing figures of the summary use: closed or merged. */
  predicate Finished(p: PrRecord) {
    p.state == "CLOSED" || p.state == "MERGED"
  }

  function FinishedPrs(prs: seq<PrRecord>): seq<PrRecord> {
    if prs == [] then []
    else FinishedPrs(prs[..|prs| - 1]) + (if Finished(prs[|prs| - 1]) then [prs[|prs| - 1]] else [])
  }

  datatype RepoSummary =
    | NoPrs(repository: string)
    | RepoSummary(
        repository: string,
        totalPrs: nat,
        openPrs: nat,
        mergedPrs: nat,
        closedPrs: nat,
        avgTimeOpenHours: Option<real>,
        medianTimeOpenHours: Option<real>,
        avgTimeToFirstReviewHours: Option<real>)

  /** `get_repository_summary` over the PRs of the export. */
  function RepositorySummary(all: seq<PrRecord>, repository: string): RepoSummary {
    var prs := RepositoryPrs(all, repository);
    if prs == [] then NoPrs(repository)
    else
      var finished := FinishedPrs(prs);
      var open := FlatMap(finished, TimeOpenSample);
      RepoSummary(repository, |prs|, CountState(prs, "OPEN"), CountState(prs, "MERGED"),
                  CountState(prs, "CLOSED"), MeanOrNone(open), MedianOrNone(open),
                  MeanOrNone(FlatMap(finished, ReviewSample)))
  }

  /** `get_repository_monthly_stats`: the monthly rollup of one repository's PRs. */
  function RepositoryMonthly(all: seq<PrRecord>, repository: string): seq<MonthSummary> {
    MonthlySummaries(RepositoryPrs(all, repository))
  }

  lemma {:induction false} FinishedExact(prs: seq<PrRecord>, p: PrRecord)
    ensures p in FinishedPrs(prs) <==> p in prs && Finished(p)
  {
    if prs != [] {
      FinishedExact(prs[..|prs| - 1], p);
      SplitLast(prs);
    }
  }

  /** The three state counts are exact matches and so never add up to more than the PRs. */
  lemma {:induction false} StateCountsAtMost(prs: seq<PrRecord>)
    ensures CountState(prs, "OPEN") + CountState(prs, "MERGED") + CountState(prs, "CLOSED") <= |prs|
  {
    if prs != [] {
      var init, last := prs[..|prs| - 1], prs[|prs| - 1];
      StateCountsAtMost(init);
      assert prs == init + [last];
      BucketSnoc(init, last, State, "OPEN");
      BucketSnoc(init, last, State, "MERGED");
      BucketSnoc(init, last, State, "CLOSED");
    }
  }

  /** The time-open sample of the summary holds only times of closed or merged PRs of the
      repository. */
  lemma FinishedTimesOpen(all: seq<PrRecord>, repository: string, h: real)
    requires h in FlatMap(FinishedPrs(RepositoryPrs(all, repository)), TimeOpenSample)
    ensures exists p :: p in all && p.repository == repository && Finished(p) && p.timeOpenHours == Some(h)
  {
    var prs := RepositoryPrs(all, repository);
    var finished := FinishedPrs(prs);
    FlatMapExact(finished, TimeOpenSample, h);
    var p :| p in finished && h in TimeOpenSample(p);
    FinishedExact(prs, p);
    InBucket(all, Repository, repository, p);
  }

  /** The summary: no PR of the repository gives only a zero count; otherwise the state
      counts are exact matches and together never exceed the total, and the time-open
      figures come only from closed or merged PRs of the repository. */
  lemma SummaryFacts(all: seq<PrRecord>, repository: string)
    ensures RepositorySummary(all, repository).NoPrs? <==> forall p :: p in all ==> p.repository != repository
    ensures var s := RepositorySummary(all, repository);
            s.RepoSummary? ==>
              && s.totalPrs == |RepositoryPrs(all, repository)|
              && s.openPrs + s.mergedPrs + s.closedPrs <= s.totalPrs
              && (forall h :: h in FlatMap(FinishedPrs(RepositoryPrs(all, repository)), TimeOpenSample) ==>
                    exists p :: p in all && p.repository == repository && Finished(p) && p.timeOpenHours == Some(h))
  {
    var prs := RepositoryPrs(all, repository);
    BucketNonEmptyIffKey(all, Repository, repository);
    StateCountsAtMost(prs);
    forall h | h in FlatMap(FinishedPrs(prs), TimeOpenSample)
      ensures exists p :: p in all && p.repository == repository && Finished(p) && p.timeOpenHours == Some(h)
    {
      FinishedTimesOpen(all, repository, h);
    }
  }
}

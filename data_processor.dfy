/** `DataProcessor.process_commits` and `calculate_summary`: commits are grouped by the date
    before the first `T` of their timestamp, each day gets summed additions and deletions,
    its commit count, its net lines and its distinct repositories, and the days come out in
    ascending date order. The summary totals the days. `data_processor.py` is the variant
    without a username; it is `ProcessCommits(commits, None)`. */
module DataProcessor {
  import opened Base
  import opened Grouping
  import opened Sorting
  import opened GithubFetcher

  /** One day's statistics, with the date key it is stored under. */
  datatype DayStat = DayStat(
    date: string,
    additions: int,
    deletions: int,
    netLines: int,
    commits: int,
    repositories: seq<string>,
    username: Option<string>)

  /** `commit["date"].split("T")[0]`. */
  function DayKey(c: Commit): string {
    BeforeFirst(c.date, 'T')
  }

  function Additions(c: Commit): int { c.additions }

  function Deletions(c: Commit): int { c.deletions }

  function RepositoryNames(cs: seq<Commit>): (r: seq<string>)
    ensures |r| == |cs| && forall i :: 0 <= i < |cs| ==> r[i] == cs[i].repository
  {
    if cs == [] then [] else RepositoryNames(cs[..|cs| - 1]) + [cs[|cs| - 1].repository]
  }

  function DayKeys(cs: seq<Commit>): (r: seq<string>)
    ensures |r| == |cs| && forall i :: 0 <= i < |cs| ==> r[i] == DayKey(cs[i])
  {
    if cs == [] then [] else DayKeys(cs[..|cs| - 1]) + [DayKey(cs[|cs| - 1])]
  }

  /** The username stored on each day: only a non-empty one. */
  function UsernameField(username: Option<string>): Option<string> {
    if Truthy(username) then username else None
  }

  /** The statistics of day d over the commits of that day. */
  function DayOf(cs: seq<Commit>, d: string, username: Option<string>): DayStat {
    DayRecord(d, TallyOf(Bucket(cs, DayKey, d)), username)
  }

  /** A finished tally as the day record: net lines and the username are added. */
  function DayRecord(d: string, t: Tally, username: Option<string>): DayStat {
    DayStat(d, t.additions, t.deletions, t.additions - t.deletions, t.commits, t.repositories,
            UsernameField(username))
  }

  /** The daily statistics: one entry per date key that occurs, in ascending date order. */
  function DailyStats(cs: seq<Commit>, username: Option<string>): seq<DayStat> {
    DaysFor(cs, SortStrings(Distinct(DayKeys(cs))), username)
  }

  /** The day records of the given dates, in that order. */
  function DaysFor(cs: seq<Commit>, dates: seq<string>, username: Option<string>): (r: seq<DayStat>)
    ensures |r| == |dates|
    ensures forall i :: 0 <= i < |dates| ==> r[i] == DayOf(cs, dates[i], username)
  {
    if dates == [] then []
    else DaysFor(cs, dates[..|dates| - 1], username) + [DayOf(cs, dates[|dates| - 1], username)]
  }

  function Dates(days: seq<DayStat>): (r: seq<string>)
    ensures |r| == |days| && forall i :: 0 <= i < |days| ==> r[i] == days[i].date
  {
    if days == [] then [] else Dates(days[..|days| - 1]) + [days[|days| - 1].date]
  }

  /** A day's running totals while the commits are scanned (the defaultdict's value). */
  datatype Tally = Tally(additions: int, deletions: int, commits: nat, repositories: seq<string>)

  function TallyOf(b: seq<Commit>): Tally {
    Tally(Weight(b, Additions), Weight(b, Deletions), |b|, Distinct(RepositoryNames(b)))
  }

  /** One commit added to a day's tally: `+=` on the counts, `set.add` on the repositories. */
  function AddCommit(t: Tally, c: Commit): Tally {
    Tally(t.additions + c.additions, t.deletions + c.deletions, t.commits + 1,
          if c.repository in t.repositories then t.repositories else t.repositories + [c.repository])
  }

  lemma TallySnoc(b: seq<Commit>, c: Commit)
    ensures TallyOf(b + [c]) == AddCommit(TallyOf(b), c)
  {
    assert (b + [c])[..|b|] == b;
    var names := RepositoryNames(b);
    assert RepositoryNames(b + [c])[..|b|] == names;
    assert c.repository in names <==> c.repository in Distinct(names) by {
      DistinctElems(names);
      assert c.repository in Elems(names) <==> c.repository in Elems(Distinct(names));
    }
  }

  lemma DayKeysElems(cs: seq<Commit>)
    ensures Elems(DayKeys(cs)) == KeysOf(cs, DayKey)
  {
    var ks := DayKeys(cs);
    forall d | d in KeysOf(cs, DayKey) ensures d in Elems(ks) {
      var x :| x in cs && DayKey(x) == d;
      var k :| 0 <= k < |cs| && cs[k] == x;
      assert ks[k] == d;
    }
  }

  /** The first loop's state after the commits cs: one tally per date key, and the keys in
      the order they were first seen. */
  ghost predicate Tallied(cs: seq<Commit>, tallies: map<string, Tally>, order: seq<string>) {
    && order == Distinct(DayKeys(cs))
    && tallies.Keys == KeysOf(cs, DayKey)
    && forall d :: d in tallies ==> tallies[d] == TallyOf(Bucket(cs, DayKey, d))
  }

  lemma OrderSnoc(cs: seq<Commit>, c: Commit)
    ensures DayKeys(cs + [c]) == DayKeys(cs) + [DayKey(c)]
    ensures Distinct(DayKeys(cs + [c]))
         == if DayKey(c) in Distinct(DayKeys(cs)) then Distinct(DayKeys(cs)) else Distinct(DayKeys(cs)) + [DayKey(c)]
  {
    var ks := DayKeys(cs);
    assert (cs + [c])[..|cs|] == cs;
    assert DayKeys(cs + [c])[..|cs|] == ks;
    assert (ks + [DayKey(c)])[..|ks|] == ks;
    assert DayKey(c) in ks <==> DayKey(c) in Distinct(ks) by {
      DistinctElems(ks);
      assert DayKey(c) in Elems(ks) <==> DayKey(c) in Elems(Distinct(ks));
    }
  }

  lemma TalliesSnoc(cs: seq<Commit>, c: Commit, tallies: map<string, Tally>)
    requires tallies.Keys == KeysOf(cs, DayKey)
    requires forall d :: d in tallies ==> tallies[d] == TallyOf(Bucket(cs, DayKey, d))
    ensures var d := DayKey(c);
            var t' := tallies[d := AddCommit(if d in tallies then tallies[d] else Tally(0, 0, 0, []), c)];
            && t'.Keys == KeysOf(cs + [c], DayKey)
            && forall e :: e in t' ==> t'[e] == TallyOf(Bucket(cs + [c], DayKey, e))
  {
    var d := DayKey(c);
    KeysOfSnoc(cs, c, DayKey);
    var t := if d in tallies then tallies[d] else Tally(0, 0, 0, []);
    var t' := tallies[d := AddCommit(t, c)];
    forall e | e in t' ensures t'[e] == TallyOf(Bucket(cs + [c], DayKey, e)) {
      if e == d {
        TallyOfNewCommit(cs, c, t);
      } else {
        TallyOfOtherDay(cs, c, e);
      }
    }
  }

  lemma TallyOfNewCommit(cs: seq<Commit>, c: Commit, t: Tally)
    requires DayKey(c) in KeysOf(cs, DayKey) ==> t == TallyOf(Bucket(cs, DayKey, DayKey(c)))
    requires DayKey(c) !in KeysOf(cs, DayKey) ==> t == Tally(0, 0, 0, [])
    ensures AddCommit(t, c) == TallyOf(Bucket(cs + [c], DayKey, DayKey(c)))
  {
    BucketSnoc(cs, c, DayKey, DayKey(c));
    BucketNonEmptyIffKey(cs, DayKey, DayKey(c));
    TallySnoc(Bucket(cs, DayKey, DayKey(c)), c);
  }

  lemma TallyOfOtherDay(cs: seq<Commit>, c: Commit, e: string)
    requires e != DayKey(c)
    ensures TallyOf(Bucket(cs, DayKey, e)) == TallyOf(Bucket(cs + [c], DayKey, e))
  {
    BucketSnoc(cs, c, DayKey, e);
    var key := DayKey;
    assert key(c) != e;
    assert Bucket(cs + [c], DayKey, e) == Bucket(cs, DayKey, e) + [];
    assert Bucket(cs, DayKey, e) + [] == Bucket(cs, DayKey, e);
  }

  /** `process_commits`: the first loop tallies each commit under its date key; the second
      loop turns each tally into a day record; the result lists the days in sorted order. */
  method ProcessCommits(commits: seq<Commit>, username: Option<string>) returns (days: seq<DayStat>)
    ensures days == DailyStats(commits, username)
  {
    var tallies, order := TallyCommits(commits);
    DayKeysElems(commits);
    DistinctElems(DayKeys(commits));
    var stats := DayRecords(commits, tallies, order, username);
    var dates := SortStrings(order);
    SortedDates(commits, order);
    days := RecordsInOrder(commits, stats, dates, username);
  }

  /** The day records listed in the order of the sorted keys. */
  method RecordsInOrder(commits: seq<Commit>, stats: map<string, DayStat>, dates: seq<string>, username: Option<string>)
    returns (days: seq<DayStat>)
    requires forall i :: 0 <= i < |dates| ==> dates[i] in stats
    requires forall d :: d in stats ==> stats[d] == DayOf(commits, d, username)
    ensures days == DaysFor(commits, dates, username)
  {
    days := ValuesAt(stats, dates);
    var spec := DaysFor(commits, dates, username);
    assert forall i :: 0 <= i < |dates| ==> days[i] == spec[i];
  }

  /** The values of a map at the given keys, in order. */
  method ValuesAt(m: map<string, DayStat>, keys: seq<string>) returns (vs: seq<DayStat>)
    requires forall i :: 0 <= i < |keys| ==> keys[i] in m
    ensures |vs| == |keys| && forall i :: 0 <= i < |keys| ==> vs[i] == m[keys[i]]
  {
    vs := [];
    for i := 0 to |keys|
      invariant |vs| == i && forall j :: 0 <= j < i ==> vs[j] == m[keys[j]]
    {
      vs := vs + [m[keys[i]]];
    }
  }

  /** The sorted keys are exactly the date keys, in the order DailyStats lists them. */
  lemma SortedDates(commits: seq<Commit>, order: seq<string>)
    requires order == Distinct(DayKeys(commits))
    ensures forall i :: 0 <= i < |SortStrings(order)| ==> SortStrings(order)[i] in Elems(order)
  {
    var dates := SortStrings(order);
    SortByElems(order, Identity);
    assert forall i :: 0 <= i < |dates| ==> dates[i] in dates;
  }

  /** The first loop of `process_commits`: the defaultdict of tallies, with its keys in
      insertion order. */
  method TallyCommits(commits: seq<Commit>) returns (tallies: map<string, Tally>, order: seq<string>)
    ensures Tallied(commits, tallies, order)
  {
    tallies, order := map[], [];
    for i := 0 to |commits|
      invariant Tallied(commits[..i], tallies, order)
    {
      var c := commits[i];
      assert commits[..i + 1] == commits[..i] + [c];
      OrderSnoc(commits[..i], c);
      TalliesSnoc(commits[..i], c, tallies);
      var d := DayKey(c);
      var t := if d in tallies then tallies[d] else Tally(0, 0, 0, []);
      tallies := tallies[d := AddCommit(t, c)];
      if d !in order {
        order := order + [d];
      }
    }
    assert commits[..|commits|] == commits;
  }

  /** The second loop of `process_commits`: net lines, the repository list and the
      username are set on every day. */
  method DayRecords(commits: seq<Commit>, tallies: map<string, Tally>, order: seq<string>, username: Option<string>)
    returns (stats: map<string, DayStat>)
    requires tallies.Keys == Elems(order)
    requires forall d :: d in tallies ==> tallies[d] == TallyOf(Bucket(commits, DayKey, d))
    ensures stats.Keys == Elems(order)
    ensures forall d :: d in stats ==> stats[d] == DayOf(commits, d, username)
  {
    stats := map[];
    for i := 0 to |order|
      invariant stats.Keys == Elems(order[..i])
      invariant forall d :: d in stats ==> stats[d] == DayOf(commits, d, username)
    {
      assert order[..i + 1] == order[..i] + [order[i]];
      assert order[i] in Elems(order);
      var t := tallies[order[i]];
      stats := stats[order[i] := DayRecord(order[i], t, username)];
    }
    assert order[..|order|] == order;
  }

  /** The day totals of the commit counts, additions or deletions. */
  function CommitsOfDays(days: seq<DayStat>): int {
    if days == [] then 0 else CommitsOfDays(days[..|days| - 1]) + days[|days| - 1].commits
  }

  function AdditionsOfDays(days: seq<DayStat>): int {
    if days == [] then 0 else AdditionsOfDays(days[..|days| - 1]) + days[|days| - 1].additions
  }

  function DeletionsOfDays(days: seq<DayStat>): int {
    if days == [] then 0 else DeletionsOfDays(days[..|days| - 1]) + days[|days| - 1].deletions
  }

  lemma DayKeysCover(cs: seq<Commit>)
    ensures Elems(Distinct(DayKeys(cs))) == KeysOf(cs, DayKey)
  {
    DistinctElems(DayKeys(cs));
    DayKeysElems(cs);
  }

  /** The days are in strictly ascending date order, and there is a day for exactly the
      date keys that occur among the commits. */
  lemma DailyStatsDates(cs: seq<Commit>, username: Option<string>)
    ensures Dates(DailyStats(cs, username)) == SortStrings(Distinct(DayKeys(cs)))
    ensures StrictlySorted(Dates(DailyStats(cs, username)))
    ensures Elems(Dates(DailyStats(cs, username))) == KeysOf(cs, DayKey)
  {
    var dates := SortStrings(Distinct(DayKeys(cs)));
    var days := DailyStats(cs, username);
    assert Dates(days) == dates;
    DistinctElems(DayKeys(cs));
    SortStringsStrict(Distinct(DayKeys(cs)));
    DayKeysCover(cs);
  }

  /** No commits, no days. */
  lemma NoCommitsNoDays(username: Option<string>)
    ensures DailyStats([], username) == []
  {
  }

  /** Each listed day is the record of a date key that occurs among the commits. */
  lemma DayIsRecordOfItsCommits(cs: seq<Commit>, username: Option<string>, i: nat)
    requires i < |DailyStats(cs, username)|
    ensures DailyStats(cs, username)[i] == DayOf(cs, DailyStats(cs, username)[i].date, username)
    ensures Bucket(cs, DayKey, DailyStats(cs, username)[i].date) != []
  {
    var day := DailyStats(cs, username)[i];
    DailyStatsDates(cs, username);
    assert day.date in Elems(Dates(DailyStats(cs, username)));
    BucketNonEmptyIffKey(cs, DayKey, day.date);
  }

  /** Each day's figures: sums over that day's commits, its commit count, net lines equal to
      additions minus deletions, and the username only when one is given. */
  lemma DayFigures(cs: seq<Commit>, username: Option<string>, i: nat)
    requires i < |DailyStats(cs, username)|
    ensures var day := DailyStats(cs, username)[i];
            var b := Bucket(cs, DayKey, day.date);
            && b != []
            && day.additions == Weight(b, Additions) && day.deletions == Weight(b, Deletions)
            && day.commits == |b|
            && day.netLines == day.additions - day.deletions
            && (Truthy(username) ==> day.username == username)
            && (!Truthy(username) ==> day.username.None?)
  {
    DayIsRecordOfItsCommits(cs, username, i);
  }

  /** A day lists each repository touched that day exactly once. */
  lemma DayRepositories(cs: seq<Commit>, username: Option<string>, i: nat)
    requires i < |DailyStats(cs, username)|
    ensures var day := DailyStats(cs, username)[i];
            && NoDup(day.repositories)
            && Elems(day.repositories) == (set c | c in Bucket(cs, DayKey, day.date) :: c.repository)
  {
    DayIsRecordOfItsCommits(cs, username, i);
    RepositorySet(Bucket(cs, DayKey, DailyStats(cs, username)[i].date));
  }

  lemma RepositorySet(b: seq<Commit>)
    ensures NoDup(Distinct(RepositoryNames(b)))
    ensures Elems(Distinct(RepositoryNames(b))) == (set c | c in b :: c.repository)
  {
    var names := RepositoryNames(b);
    DistinctElems(names);
    forall r | r in Elems(names) ensures exists c :: c in b && c.repository == r {
      var k :| 0 <= k < |names| && names[k] == r;
      assert b[k] in b;
    }
    forall c | c in b ensures c.repository in Elems(names) {
      var k :| 0 <= k < |b| && b[k] == c;
      assert names[k] == c.repository;
    }
  }

  lemma {:induction false} CommitsOfDaysIsBucketTotal(cs: seq<Commit>, dates: seq<string>, username: Option<string>)
    ensures CommitsOfDays(DaysFor(cs, dates, username)) == BucketTotals(dates, cs, DayKey, One)
    ensures AdditionsOfDays(DaysFor(cs, dates, username)) == BucketTotals(dates, cs, DayKey, Additions)
    ensures DeletionsOfDays(DaysFor(cs, dates, username)) == BucketTotals(dates, cs, DayKey, Deletions)
  {
    if dates != [] {
      var init := dates[..|dates| - 1];
      var days := DaysFor(cs, dates, username);
      CommitsOfDaysIsBucketTotal(cs, init, username);
      assert days[..|days| - 1] == DaysFor(cs, init, username);
      WeightOne(Bucket(cs, DayKey, dates[|dates| - 1]));
    }
  }

  /** Conservation: the daily commit counts add up to the number of commits, and the daily
      additions and deletions to their totals over all commits. */
  lemma DailyStatsConserve(cs: seq<Commit>, username: Option<string>)
    ensures CommitsOfDays(DailyStats(cs, username)) == |cs|
    ensures AdditionsOfDays(DailyStats(cs, username)) == Weight(cs, Additions)
    ensures DeletionsOfDays(DailyStats(cs, username)) == Weight(cs, Deletions)
  {
    var dates := SortStrings(Distinct(DayKeys(cs)));
    DistinctElems(DayKeys(cs));
    SortStringsStrict(Distinct(DayKeys(cs)));
    StrictlySortedNoDup(dates);
    DayKeysCover(cs);
    CommitsOfDaysIsBucketTotal(cs, dates, username);
    BucketsPartition(dates, cs, DayKey, One);
    BucketsPartition(dates, cs, DayKey, Additions);
    BucketsPartition(dates, cs, DayKey, Deletions);
    WeightOne(cs);
  }

  /** `calculate_summary`: nothing for no days (only the username, when one is given), else
      the totals over the days, net lines and the per-day averages. */
  datatype Summary =
    | NoActivity(username: Option<string>)
    | Totals(totalAdditions: int, totalDeletions: int, netLines: int, totalCommits: int,
             totalDays: nat, avgDailyLines: real, avgCommitsPerDay: real, username: Option<string>)

  function CalculateSummary(days: seq<DayStat>, username: Option<string>): (r: Summary)
    ensures r.NoActivity? <==> days == []
    ensures r.username == UsernameField(username)
    ensures r.Totals? ==>
              && r.totalDays == |days|
              && r.netLines == r.totalAdditions - r.totalDeletions
              && r.avgDailyLines * (r.totalDays as real) == r.netLines as real
              && r.avgCommitsPerDay * (r.totalDays as real) == r.totalCommits as real
  {
    if days == [] then NoActivity(UsernameField(username))
    else
      var adds, dels, commits := AdditionsOfDays(days), DeletionsOfDays(days), CommitsOfDays(days);
      var n := |days|;
      Totals(adds, dels, adds - dels, commits, n, (adds - dels) as real / n as real,
             commits as real / n as real, UsernameField(username))
  }

  /** The summary of the daily statistics of a non-empty commit list counts every commit
      once and totals every addition and deletion, over as many days as there are date
      keys. */
  lemma SummaryOfCommits(cs: seq<Commit>, username: Option<string>)
    requires cs != []
    ensures var s := CalculateSummary(DailyStats(cs, username), username);
            && s.Totals?
            && s.totalCommits == |cs|
            && s.totalAdditions == Weight(cs, Additions)
            && s.totalDeletions == Weight(cs, Deletions)
            && s.totalDays == |KeysOf(cs, DayKey)|
  {
    DailyStatsConserve(cs, username);
    DailyStatsDates(cs, username);
    var dates := Dates(DailyStats(cs, username));
    StrictlySortedNoDup(dates);
    NoDupCardinality(dates);
    BucketNonEmptyIffKey(cs, DayKey, DayKey(cs[0]));
    assert DayKey(cs[0]) in KeysOf(cs, DayKey);
  }

  /** The summary example: days of 100/10 with 2 commits and 50/5 with 1 commit total 150
      additions, 15 deletions, 135 net lines and 3 commits over 2 days. */
  lemma SummaryExample()
    ensures var s := CalculateSummary([DayStat("2026-01-01", 100, 10, 90, 2, ["repo1"], None),
                                       DayStat("2026-01-02", 50, 5, 45, 1, ["repo2"], None)], None);
            s == Totals(150, 15, 135, 3, 2, 67.5, 1.5, None)
  {
    var days := [DayStat("2026-01-01", 100, 10, 90, 2, ["repo1"], None),
                 DayStat("2026-01-02", 50, 5, 45, 1, ["repo2"], None)];
    assert days[..1] == [days[0]];
    assert [days[0]][..0] == [];
    assert AdditionsOfDays(days) == 150 && DeletionsOfDays(days) == 15 && CommitsOfDays(days) == 3;
    assert (150 - 15) as real / 2 as real == 67.5;
  }
}

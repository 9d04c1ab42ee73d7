# gh-productivity metrics code, modelled in Dafny

gh-productivity collects engineering activity from GitHub and Jira and turns it into the
figures its dashboard shows. This project models the core of its metrics code:

- the GitHub commit fetcher: GraphQL commit nodes become commit records, cursor pages are
  concatenated, and a memo is kept per organisation;
- the daily commit statistics and their summary;
- the dashboard cache that is written to and read from CSV;
- the pull-request fetcher and its per-PR metrics;
- the monthly pull-request aggregation and the PR export cache;
- the Jira changelog transformation, the "In Progress" cycle extraction, and the cycle-time
  statistics behind the Jira endpoints;
- the GitHub-username to Jira-email matcher and the user-mapping lookup service.

One Dafny module models each core source file. A few modules are shared:

- `Base`: Option/Result, ASCII lowercasing, slicing, splitting and joining, lexicographic
  order, de-duplication and flat-map;
- `Grouping`: the generic "group by key" and its conservation lemmas;
- `Sorting`: Python's stable `sorted`, by a string key and on reals;
- `Stats`: sum, mean, median, minimum and maximum.

The closest fit for each Python construct:

- Loops that update variables are methods with loop invariants. Each method's postcondition
  ties its result to a specification function.
- The module-level caches are classes whose methods say how they change the cache.
- Dictionaries that the code builds in insertion order are sequences, or maps together with
  their key order.
- Timestamps are parsed by a parameter `parse: string -> Option<int>`, which gives seconds.
  The current time, the cutoff date and file modification times are parameters.
- `difflib.SequenceMatcher(...).ratio()` is a parameter `sim` with values in [0, 1].
- Files, GraphQL responses and the repository listing are inputs.

`src/github/github_processor.py` and `src/cache_builder.py` hold the same filter, user-list,
build and load code; the `CommitCache` module models both. `src/data_processor.py`'s
`DataProcessor` is `github_processor.py`'s without the username: it is the `DataProcessor`
module called with `None`. `cache_builder.py` imports that username-less processor and still
passes a username (see Findings).

## Model

| member | source | states |
|---|---|---|
| Base.Lower | src/github/github_processor.py:157 | ASCII `str.lower()`: same length, each character lowered |
| Base.BeforeFirst | src/data_processor.py:34 | `s.split("T")[0]`: the longest prefix without the separator, followed by the separator when shorter than the string |
| Base.Take | src/api/jira.py:188 | `timestamp[:7]`: the first n characters, or the whole string when shorter |
| Base.RStrip | src/user_mapper.py:36 | `str.rstrip(chars)`: a prefix whose last character is not stripped, with every removed character in the set |
| Base.SplitJoin | src/github/github_processor.py:265 | splitting a `;`-join of parts that hold no `;` gives back exactly the parts |
| Base.DistinctElems | src/github/github_processor.py:46-53 | turning a list into a set and back (`list(set(...))`) gives no repeats and the same elements |
| Grouping.BucketsPartition | src/github/github_processor.py:40-46 | when every key of the input is listed once, the per-key totals of any weight add up to the total over the whole input |
| Grouping.BucketNonEmptyIffKey | src/github/github_processor.py:40-46 | a key's group is non-empty exactly when some element has that key |
| Grouping.InBucket | src/github/github_processor.py:40-46 | an element is in the group of key k exactly when it is in the input and has key k |
| Grouping.GroupedSnoc | src/api/jira.py:137-143 | appending one element to a `setdefault(...).append(...)` grouping extends exactly the element's own group |
| Grouping.BucketTotalsAtMost | src/github/pr_processor.py:191-193 | with non-negative weights, the totals over any distinct keys never exceed the total over the input |
| Sorting.SortBy | src/github/pr_processor.py:129 | the stable sort by key keeps the length and the multiset of elements |
| Sorting.SortBySorted | src/github/pr_processor.py:129 | the sort by key is ordered by key |
| Sorting.KeepsOrderOfEqualKeys | src/jira/jira_processor.py:26 | the sort is stable: the elements with any one key keep their input order |
| Sorting.SortStringsStrict | src/github/github_processor.py:174 | `sorted(set)`: sorting distinct strings gives a strictly ascending list of the same strings |
| Sorting.StrictlySortedUnique | src/github/github_processor.py:277 | two strictly ascending lists with the same elements are equal |
| Sorting.SortReals | src/api/jira.py:114 | `sorted` on numbers keeps the length and the multiset |
| Sorting.SortRealsSorted | src/api/jira.py:114 | `sorted` on numbers gives an ascending list |
| Stats.Min | src/api/jira.py:122 | `min` of a non-empty list is one of its elements and at most every element |
| Stats.Max | src/api/jira.py:123 | `max` of a non-empty list is one of its elements and at least every element |
| Stats.MeanBetweenMinAndMax | src/api/jira.py:120 | the mean of a non-empty list lies between its minimum and maximum |
| Stats.MedianBetweenMinAndMax | src/api/jira.py:114-116 | the median (the middle of the sorted list, or the mean of the two middles) lies between minimum and maximum |
| Stats.MeanAndMedianOfTwo | src/api/jira.py:116-121 | for any two values, in either order, the median (the mean of the two middle elements) and the mean are both their average |
| DataProcessor.ProcessCommits | src/github/github_processor.py:21-57 | the result is the daily statistics: one record per date key that occurs, in ascending date order, each computed from that date's commits; `src/data_processor.py:15-48` is the call with no username |
| DataProcessor.TallyCommits | src/github/github_processor.py:40-46 | after the first loop each date key's tally is the tally of exactly the commits with that key, and the key order is the order of first appearance |
| DataProcessor.DayRecords | src/github/github_processor.py:49-55 | the second loop gives each date the record of its tally: net lines, the repository list and the username when one is given |
| DataProcessor.RecordsInOrder | src/github/github_processor.py:57 | the records are listed in the order of the sorted dates |
| DataProcessor.DailyStatsDates | src/github/github_processor.py:57 | the dates of the result are strictly ascending and are exactly the date keys of the commits |
| DataProcessor.NoCommitsNoDays | tests/test_data_processor.py:13-16 | no commits give no days |
| DataProcessor.DayIsRecordOfItsCommits | src/github/github_processor.py:40-57 | every listed day is the record of its own date's commits, of which there is at least one |
| DataProcessor.DayFigures | src/github/github_processor.py:43-55 | a day's additions and deletions are sums over its commits, its commit count is their number, net lines are additions minus deletions, and a username is stored only when one is given |
| DataProcessor.DayRepositories | src/github/github_processor.py:46-53 | a day lists each repository touched that day exactly once |
| DataProcessor.DailyStatsConserve | tests/test_data_processor.py:18-47 | the daily commit counts add up to the number of commits, and the daily additions and deletions to the totals over all commits |
| DataProcessor.CalculateSummary | src/github/github_processor.py:59-82 | no days give only the username, when one is given; otherwise the day count, net lines equal to additions minus deletions, and averages per day that multiply back to the totals |
| DataProcessor.SummaryOfCommits | src/github/github_processor.py:59-82 | the summary of a non-empty commit list's days counts every commit, totals every addition and deletion, and has one day per date key |
| DataProcessor.CommitsOfDaysIsBucketTotal | src/github/github_processor.py:64-66 | the totals over the days are the numbers of commits, additions and deletions of the commits grouped under those days |
| DataProcessor.SummaryExample | tests/test_data_processor.py:49-74 | the summary of the test's two days is 150 additions, 15 deletions, 135 net lines and 3 commits over 2 days |
| CommitCache.FilterCommitsByUser | src/github/github_processor.py:149-162 | the result is the user's commits across all organisations and repositories in traversal order, author matched case-insensitively, keeping the first commit of each sha |
| CommitCache.FilterCommits | src/github/github_processor.py:156-160 | the innermost loop extends the kept commits and seen shas by one repository's commits |
| CommitCache.FilterRepos | src/github/github_processor.py:155-160 | the middle loop extends the kept commits and seen shas by one organisation's repositories |
| CommitCache.UserCommitsMatch | src/github/github_processor.py:157-160 | every kept commit is cached and belongs to the user, no two kept commits share a sha, and each is the first of the user's commits with its sha |
| CommitCache.UserCommitsKeepEverySha | src/github/github_processor.py:158-160 | every sha among the user's commits is kept |
| CommitCache.GetAllUsersFromCommits | src/github/github_processor.py:165-174 | the result is the sorted set of commit authors that are non-empty and not "unknown" in any case |
| CommitCache.UsersOfCommits | src/github/github_processor.py:170-173 | the innermost loop adds one repository's user authors, each once, in order of first appearance |
| CommitCache.UsersOfRepos | src/github/github_processor.py:169-173 | the middle loop adds one organisation's user authors |
| CommitCache.UserListIsSortedSet | src/github/github_processor.py:171-174 | the user list is strictly ascending and holds exactly the non-empty cached authors that are not "unknown" |
| CommitCache.ListedUserHasCommits | src/github/github_processor.py:202-212 | every listed user has at least one filtered commit |
| CommitCache.Cells | src/github/github_processor.py:232-235 | a row is written as one cell per header column |
| CommitCache.ReadWrittenRow | src/github/github_processor.py:254-264 | a row written under the header reads back by column name as the same row |
| CommitCache.RowsOfDays | src/github/github_processor.py:216-225 | one row per day of the user, in day order, holding the day's figures and the `;`-joined repositories |
| CommitCache.BuildDashboardCache | src/github/github_processor.py:177-238 | every listed user gets the entry of their filtered commits (days, summary, commit count), and the rows are the users' days, user by user |
| CommitCache.BuildUsers | src/github/github_processor.py:202-225 | the build loop gives each listed user the built entry and appends that user's rows |
| CommitCache.BuildUser | src/github/github_processor.py:204-225 | one user's entry is filter, process and summarise, with the count of filtered commits, and the user's rows are the rows of those days |
| CommitCache.BuiltRowsHoldDays | src/github/github_processor.py:216-225 | every written row of a user holds its day's date, counts and net lines, and the `;`-join of its repositories |
| CommitCache.ReadRows | src/github/github_processor.py:252-267 | the reading loop keeps, for each user, a dictionary of days in which a later row for a date replaces an earlier one, with dates and users in order of first appearance |
| CommitCache.LoadDashboardCache | src/github/github_processor.py:241-285 | a missing file gives None; otherwise there is one entry per user with a row, holding that user's days sorted by date, their summary and the sum of the daily commit counts |
| CommitCache.LaterRowWins | src/github/github_processor.py:260 | a later row for the same user and date replaces the earlier one |
| CommitCache.LoadedDaysSorted | src/github/github_processor.py:277-282 | loaded days are strictly ascending by date, one per date of the user's rows, and the commit count is the sum of the daily counts |
| CommitCache.RepositoriesRoundTrip | src/github/github_processor.py:265 | an empty cell loads as no repositories, and a `;`-join of non-empty names without `;` splits back into those names |
| CommitCache.DayRoundTrip | src/github/github_processor.py:216-267 | a day written as a row loads back as the same day when no repository name is empty or holds `;` |
| CommitCache.UserRowsOfBuilt | src/github/github_processor.py:202-225 | among the written rows, a user's rows are exactly the rows of that user's days |
| CommitCache.UserDaysRoundTrip | src/github/github_processor.py:216-277 | a listed user's days loaded from the written rows are the built days |
| CommitCache.ListedUserHasDays | src/github/github_processor.py:202-225 | every listed user has at least one day and so at least one row |
| CommitCache.LoadOfBuild | src/github/github_processor.py:177-285 | loading what the build wrote gives exactly the built users, each with the built entry (days, summary and commit count), when no repository name is empty or holds `;` |
| CommitCache.CacheBuilderBuildAsWritten | src/cache_builder.py:111-116 | as written, the build fails with TypeError as soon as there is a user, and otherwise yields nothing |
| CommitCache.CacheBuilderLoadAsWritten | src/cache_builder.py:157-187 | as written, the load gives None for a missing file, nothing for an empty file, and TypeError as soon as there is a row |
| CommitCache.CacheBuilderFailsWithAUser | src/cache_builder.py:9 | with one cached user commit, both as-written operations fail, while the corrected build lists that author with at least one commit |
| GithubFetcher.CommitAuthor | src/github/github_fetcher.py:233-240 | the author is never empty: the user's login, else the author's name, else "unknown" |
| GithubFetcher.FetchRepoCommits | src/github/github_fetcher.py:196-258 | the commits are the nodes of every page read, in order, as records; reading stops at a response without history, or when there is no next page |
| GithubFetcher.ReadPagesUpToLast | src/github/github_fetcher.py:253-256 | when every page up to the first without a next page has history, exactly those pages' nodes are read |
| GithubFetcher.RepoCommitsWellFormed | src/github/github_fetcher.py:242-251 | every fetched commit names its repository as `owner/name` and a non-empty author |
| GithubFetcher.OrgCommitCache.constructor | src/github/github_fetcher.py:120-124 | the memo starts empty |
| GithubFetcher.OrgCommitCache.FetchOrgCommits | src/github/github_fetcher.py:126-170 | a memoised organisation is returned unchanged; otherwise each listed repository comes from its cache file or a fetch, and the result is stored |
| GithubFetcher.OrgCommitCache.GetUserCommits | src/github/github_fetcher.py:260-270 | the organisation's commits whose author equals the username case-insensitively, in order, after the memo is filled for it |
| GithubFetcher.UserCommitsIn | src/github/github_fetcher.py:264-268 | the filter loop keeps exactly the matching commits in traversal order |
| GithubFetcher.ByAuthorMembers | src/github/github_fetcher.py:266-268 | a commit is kept exactly when it is in the list and its author equals the username ignoring case |
| GithubFetcher.DedupShaDistinct | src/github/github_fetcher.py:315-318 | the `seen_shas` filter keeps one commit per sha and loses no sha |
| GithubFetcher.DedupShaKeepsFirst | src/github/github_fetcher.py:315-318 | the commit kept for each sha is the first with that sha |
| GithubFetcher.DedupShaKeepsOrder | src/github/github_fetcher.py:315-318 | kept commits come in the order of their shas' first appearance |
| GithubFetcher.DedupShaSubset | src/github/github_fetcher.py:315-318 | every kept commit comes from the input |
| GithubFetcher.AppendUnseen | src/github/github_fetcher.py:315-318 | one organisation's user commits extend the de-duplicated list and the seen shas |
| GithubFetcher.FetchAllCommits | src/github/github_fetcher.py:296-320 | the memo gains only the configured organisations, fetched from their sources, and keeps what it had; the result is the user's commits across organisations in order, first of each sha |
| GithubFetcher.UserCommitsAcrossStable | src/github/github_fetcher.py:133-134 | adding organisations to the memo does not change what the ones already there give |
| GithubFetcher.AllCommitsMatchUser | src/github/github_fetcher.py:311-318 | every commit returned matches the username case-insensitively, and no sha repeats |
| PrProcessor.TimeOpenCases | src/github/pr_processor.py:56-75 | time open is None exactly without a creation time; otherwise hours from creation to the merge time, else the close time, else now; an error exactly when a timestamp it reads does not parse |
| PrProcessor.ValidReviewsExact | src/github/pr_processor.py:82 | the valid reviews are exactly the reviews with a submission time |
| PrProcessor.FirstReviewIsEarliest | src/github/pr_processor.py:83-85 | the first review after the sort is a submitted review of the PR whose submission time is the smallest |
| PrProcessor.TimeToFirstReviewCases | src/github/pr_processor.py:78-92 | time to first review is None exactly without a creation time or a submitted review; otherwise hours from creation to the earliest submission |
| PrProcessor.ReviewerCountBounds | src/github/pr_processor.py:95-96 | the reviewer count counts distinct non-empty authors: at most the number of reviews, and zero exactly when no review has an author |
| PrProcessor.MetricsOfPr | src/github/pr_processor.py:43-103 | the metrics succeed exactly when both timings do; then they carry the PR unchanged, its two timings, its reviewer count and size = additions + deletions |
| PrProcessor.BuildPrExport | src/github/pr_processor.py:200-227 | the export rows are one row per PR, repository by repository, or the error of the first PR whose metrics raise |
| PrProcessor.BuildRepoRows | src/github/pr_processor.py:210-227 | the inner loop gives one row per PR of a repository, or the first error |
| PrProcessor.ExportErrSticks | src/github/pr_processor.py:209-211 | once a repository's PR raises, the whole export ends with that error |
| PrProcessor.PrRowsErrSticks | src/github/pr_processor.py:210-211 | once a PR raises, the rest of its repository is not exported |
| PrProcessor.PrRowsShape | src/github/pr_processor.py:212-215 | a successful export has one row per PR naming its repository and number, with a title of at most 200 characters that begins the PR's title and equals it when short enough |
| PrProcessor.ReadRows | src/github/pr_processor.py:262-283 | the reading loop converts every row, in file order |
| PrProcessor.ReadWrittenRow | src/github/pr_processor.py:212-282 | a PR exported and read back keeps its metrics and counts, has the cut title, "" for an absent state or creation time, and None exactly for an absent close or merge time |
| PrProcessor.PrExportCache.constructor | src/github/pr_processor.py:16-17 | the cache starts empty |
| PrProcessor.PrExportCache.LoadPrExport | src/github/pr_processor.py:245-289 | no file gives no PRs and leaves the cache; a cache filled at the file's current mtime is returned; otherwise the rows are read and cached with that mtime |
| PrProcessor.LoadTwice | src/github/pr_processor.py:257-260 | two loads of an unchanged file give the same PRs, the second from the cache |
| PrProcessor.AllRepositoriesExact | src/github/pr_processor.py:150-154 | the repository list is strictly ascending and holds exactly the repositories of the export |
| PrProcessor.GroupByMonth | src/github/pr_processor.py:118-125 | the grouping loop gives every month the PRs with a creation time created in it, in input order, and the months in order of first appearance |
| PrProcessor.AggregatePrsByMonth | src/github/pr_processor.py:106-147 | the result lists the months in ascending order, each with the figures of its PRs |
| PrProcessor.SummariesInOrder | src/github/pr_processor.py:129-145 | the loop over the sorted months gives each month's figures, in that order |
| PrProcessor.Summaries | src/github/pr_processor.py:129-145 | one entry per month given, the i-th being the figures of the i-th month's PRs |
| PrProcessor.MonthsExact | src/github/pr_processor.py:118-129 | the months are strictly ascending, and a month is listed exactly when a PR with a creation time was created in it |
| PrProcessor.DatedExact | src/github/pr_processor.py:118-121 | a PR is grouped exactly when it has a non-empty creation time |
| PrProcessor.PrCountsAreBucketTotals | src/github/pr_processor.py:124-138 | the PR counts of the summaries add up to the sizes of the months' groups |
| PrProcessor.MonthlyEntries | src/github/pr_processor.py:118-145 | each month's entry summarises exactly the PRs with a creation time created that month, in input order, and counts at least one |
| PrProcessor.MonthlyCountsConserve | src/github/pr_processor.py:118-138 | the monthly PR counts add up to the number of PRs with a creation time |
| PrProcessor.SummaryTimings | src/github/pr_processor.py:130-141 | a month's timing figures are None exactly when none of its PRs has that timing, and the time-open sample holds exactly the times of the PRs that have one |
| PrProcessor.SummaryTimeOpenBounds | src/github/pr_processor.py:139-140 | the average and the median of a month's times open are the mean and median of the sample, between its smallest and largest value |
| PrProcessor.StateCountsAtMost | src/github/pr_processor.py:191-193 | the open, merged and closed counts together never exceed the number of PRs |
| PrProcessor.FinishedExact | src/github/pr_processor.py:183 | the PRs the summary times are exactly the closed or merged ones |
| PrProcessor.FinishedTimesOpen | src/github/pr_processor.py:183-185 | every time in the summary's time-open sample is that of a closed or merged PR of the repository |
| PrProcessor.SummaryFacts | src/github/pr_processor.py:172-197 | a repository without PRs gives only the zero count; otherwise the total is its PR count, the state counts never exceed it, and the timings come only from its closed or merged PRs |
| PrFetcher.ReviewsOf | src/github/pr_fetcher.py:224-236 | the review loop gives one review per review node, in order |
| PrFetcher.ReviewsInOrder | src/github/pr_fetcher.py:226-236 | a PR's reviews are its review nodes in order, keeping submission time and state, with the login as author when there is one and "unknown" otherwise |
| PrFetcher.ShapePage | src/github/pr_fetcher.py:209-251 | the node loop of one page extends the PRs read so far by the page's nodes that pass the cutoff, or fails at the first timestamp that does not parse |
| PrFetcher.ShapeFailsAt | src/github/pr_fetcher.py:212-213 | a node whose creation time does not parse makes the whole page, and the fetch, fail |
| PrFetcher.ShapeNodesErrSticks | src/github/pr_fetcher.py:213 | once a node fails, later nodes do not bring the PRs back |
| PrFetcher.FetchRepoPrs | src/github/pr_fetcher.py:183-258 | the PRs are the nodes of every page read, up to and including the first page without a next page or before a response without a repository, that pass the cutoff, in order |
| PrFetcher.ShapedPrs | src/github/pr_fetcher.py:209-251 | a PR is kept exactly when it is some node that passes the cutoff, shaped; every kept PR names `owner/repo`, has a non-empty author, and without a creation time is kept, with one was created at or after the cutoff |
| PrFetcher.CutoffCases | src/github/pr_fetcher.py:211-215 | a node without a creation time is kept, one created before the cutoff is dropped, and one whose time does not parse raises |
| PrFetcher.GatherPrefix | src/github/pr_fetcher.py:134-154 | the stored repositories are those before the first failing fetch, in listing order, each with its PRs; without a failure every listed repository is stored |
| PrFetcher.GatherFailedSticks | src/github/pr_fetcher.py:153-154 | after a failure the later repositories are not read |
| PrFetcher.OrgPrCache.constructor | src/github/pr_fetcher.py:107-111 | the memo starts empty |
| PrFetcher.OrgPrCache.FetchOrgPrs | src/github/pr_fetcher.py:113-157 | a memoised organisation is returned unchanged; otherwise repositories come from their cache file or a fetch until one raises, and what was gathered is stored |
| PrFetcher.AddOrg | src/github/pr_fetcher.py:281-283 | the inner loop stores each repository's PRs under `org/repo` |
| PrFetcher.AddEntriesKeys | src/github/pr_fetcher.py:281-283 | every entry gets its `org/repo` key, and every other key keeps its value |
| PrFetcher.AddEntriesKeep | src/github/pr_fetcher.py:281-283 | storing an organisation's entries never removes a key |
| PrFetcher.AllPrsKeyed | src/github/pr_fetcher.py:277-286 | the keys are exactly the `org/repo` paths of the organisations' stored repositories, each holding the PRs of a repository with that path |
| PrFetcher.FetchAllOrgPrs | src/github/pr_fetcher.py:261-286 | every configured organisation goes through the memo, which gains only those organisations, each fetched from its listing; the result is every stored repository's PRs under `org/repo` |
| PrFetcher.AllPrsStable | src/github/pr_fetcher.py:120-121 | adding organisations to the memo does not change what the ones already there give |
| JiraFetcher.TransformIssue | src/jira/jira_fetcher.py:224-268 | the nested loops over histories and items yield the issue's fields copied, the assignee reduced to three fields, and the status transitions of the changelog in history and item order |
| JiraFetcher.ItemTransitionsExact | src/jira/jira_fetcher.py:251-257 | a history entry contributes exactly its items whose field is "status", each stamped with the entry's time |
| JiraFetcher.StatusTransitionsExact | src/jira/jira_fetcher.py:248-257 | a transition is recorded exactly when some history entry has a status item it was built from, stamped with that entry's time |
| JiraFetcher.StatusTransitionsAppend | src/jira/jira_fetcher.py:249-257 | the transitions of two runs of histories are those of the first followed by those of the second |
| JiraFetcher.ItemTransitionsAppend | src/jira/jira_fetcher.py:251-257 | the same for two runs of items of one entry |
| JiraFetcher.TransformedFields | src/jira/jira_fetcher.py:238-268 | the assignee is absent exactly when the raw issue has none, otherwise it holds the raw id, name and email; the key and the transitions are carried over |
| JiraProcessor.ExtractInProgressCycles | src/jira/jira_processor.py:11-50 | the state machine over the transitions sorted by timestamp gives exactly the reference cycles: one per transition leaving "In Progress", from the latest entry into it that has a timestamp; no transitions give no cycles |
| JiraProcessor.CyclesCarryIssue | src/jira/jira_processor.py:42-47 | every cycle carries the issue key and the assignee email |
| JiraProcessor.CyclesExact | src/jira/jira_processor.py:35-48 | a cycle is produced exactly for a transition not entering "In Progress" whose predecessor entered it with a non-empty timestamp, spanning the two timestamps |
| JiraProcessor.CyclesAtMostEntries | src/jira/jira_processor.py:39-48 | there are never more cycles, plus a start left open at the end, than entries into "In Progress" |
| JiraProcessor.OpenStartAddsNoCycle | src/jira/jira_processor.py:39-40 | a final entry into "In Progress" adds no cycle |
| JiraProcessor.CyclesOrdered | src/jira/jira_processor.py:26-48 | over transitions sorted by timestamp every cycle starts no later than it ends |
| JiraProcessor.IssueCyclesProperties | src/jira/jira_processor.py:11-50 | an issue's cycles carry its key and email, start no later than they end, and do not outnumber its entries into "In Progress" |
| JiraProcessor.ProcessIssues | src/jira/jira_processor.py:68-73 | the collected cycles are those of every issue, in project order and then issue order |
| JiraProcessor.ProjectCycles | src/jira/jira_processor.py:71-73 | the inner loop collects one project's cycles in issue order |
| JiraProcessor.IssuesOfExact | src/jira/jira_processor.py:70-71 | an issue is visited exactly when it belongs to some project |
| JiraProcessor.AllCyclesExact | src/jira/jira_processor.py:68-73 | a cycle is written exactly when it is a cycle of some issue of some project |
| JiraProcessor.AllCyclesAppend | src/jira/jira_processor.py:70-73 | the cycles of two runs of projects are those of the first followed by those of the second |
| JiraProcessor.IssuesOfAppend | src/jira/jira_processor.py:70-71 | the issues of two runs of projects are those of the first followed by those of the second |
| JiraApi.Hundredths | src/api/jira.py:65 | the hours in hundredths are within half a hundredth (18 seconds) of the exact duration, with the sign of the duration |
| JiraApi.CycleHoursPositive | src/api/jira.py:32-68 | a cycle has positive hours exactly when both timestamps parse and the end is at least 18 seconds after the start; a timestamp that parses in no accepted format gives 0.0 |
| JiraApi.ForEmailExact | src/api/jira.py:95-96 | a given non-empty email keeps exactly the cycles with that assignee email; no email keeps every cycle |
| JiraApi.CollectHours | src/api/jira.py:99-103 | the loop keeps the positive hours of the cycles, in order |
| JiraApi.PositiveHoursExact | src/api/jira.py:99-103 | every kept value is positive and is the hours of some cycle; none is kept exactly when no cycle has positive hours |
| JiraApi.StatsOrdered | src/api/jira.py:114-124 | for a non-empty sample of positive hours the count is its size and 0 < min <= median <= max, min <= mean <= max |
| JiraApi.GetJiraStats | src/api/jira.py:87-124 | the statistics are those of the positive hours of the filtered cycles, all zero when there are none |
| JiraApi.JiraStatsProperties | src/api/jira.py:95-124 | the count is the number of filtered cycles with positive hours; it is zero exactly when no filtered cycle has positive hours, and then every figure is zero; otherwise the figures are ordered |
| JiraApi.GroupByUser | src/api/jira.py:136-143 | every cycle's group, its email or "unassigned", is a key, holding that group's positive hours in order, and there are no other keys |
| JiraApi.GetJiraStatsByUser | src/api/jira.py:129-162 | a group is in the result exactly when it occurs and has positive hours, and then holds the statistics of those hours |
| JiraApi.ByUserReported | src/api/jira.py:137-160 | a group is reported exactly when one of its cycles has positive hours, and its figures are then ordered; a cycle without an email is grouped under "unassigned" |
| JiraApi.KeptExact | src/api/jira.py:180-187 | a cycle is grouped by month exactly when its hours are positive and its end is non-empty |
| JiraApi.GroupByMonth | src/api/jira.py:179-191 | every grouped cycle's month, the first seven characters of its end, is a key holding that month's hours in order, no other keys exist, and the months are listed in first-seen order |
| JiraApi.GetJiraStatsMonthly | src/api/jira.py:167-208 | the result is one entry per month in ascending order, each with the statistics of that month's hours |
| JiraApi.GroupedIsSamples | src/api/jira.py:179-191 | the grouping loop's map is the reference per-month sample map |
| JiraApi.EntriesInOrder | src/api/jira.py:194-208 | the result loop gives one entry per listed month, in the listed order |
| JiraApi.MonthsAreKeys | src/api/jira.py:195 | every month of the sorted listing is a key of the grouped cycles and of the sample map |
| JiraApi.MonthEntriesComplete | src/api/jira.py:194-208 | with every month's sample non-empty, there is an entry per month, in order, holding the statistics of its sample |
| JiraApi.MonthTimesNonEmpty | src/api/jira.py:189-197 | a month that occurs has at least one value, so the skip for an empty month never fires |
| JiraApi.MonthTimesPositive | src/api/jira.py:182-183 | every value grouped under a month is positive |
| JiraApi.MonthsExact | src/api/jira.py:195 | the months are strictly ascending and are exactly the months of the grouped cycles |
| JiraApi.MonthlyMonths | src/api/jira.py:175-195 | the months are strictly ascending, and a month appears exactly when some filtered cycle with positive hours and a non-empty end completed in it |
| JiraApi.MonthStatsOrdered | src/api/jira.py:196-208 | the figures of a month that occurs are ordered and its minimum is positive |
| JiraApi.MonthlyEntries | src/api/jira.py:167-208 | there is one entry per month, in order, each with a non-empty sample, its statistics and ordered figures |
| UserMapper.StripSuffix | src/user_mapper.py:29-33 | the result is a prefix of the name, so removing a suffix never adds characters |
| UserMapper.NormalizeGithubUsername | src/user_mapper.py:15-38 | the suffix loop stops at the first suffix the lowercased name ends with; the key is a prefix of the lowercased username and does not end with `-` or `_` |
| UserMapper.NormalizeJiraEmail | src/user_mapper.py:41-52 | an email without `@` is lowercased whole |
| UserMapper.JiraKeyIsLocalPart | src/user_mapper.py:52 | the key of `local@domain` is the lowercased local part |
| UserMapper.StripAppendedSuffix | src/user_mapper.py:29-33 | a name with an organisation suffix appended loses exactly that suffix, whichever of the four it is |
| UserMapper.SuffixedNameMatchesEmail | src/user_mapper.py:15-52 | a lowercase username with an organisation suffix and the email with the same local part have the same key |
| UserMapper.FindBestJiraMatch | src/user_mapper.py:96-135 | the candidate loop returns the reference outcome: nothing for an empty key, the first exact key match with 1.0, or the best candidate if its score reaches the threshold |
| UserMapper.ScanFindsFirstExact | src/user_mapper.py:117-119 | the scan ends with the first candidate whose key equals the user's |
| UserMapper.ScanBound | src/user_mapper.py:111-130 | without an exact match the best score is at least 0 and at least the score of every candidate with a non-empty key |
| UserMapper.ScanWitness | src/user_mapper.py:128-130 | the best candidate is one of the candidates |
| UserMapper.BestJiraMatchCases | src/user_mapper.py:96-135 | no email means score 0; with an exact key match the first such candidate is returned with 1.0; otherwise a returned candidate has a positive score of at least the threshold, no lower than any other's and higher than every earlier one's, and nothing is returned exactly when every candidate scores 0 or less or below the threshold |
| UserMapper.ContainmentIsEnough | src/user_mapper.py:125-133 | when one key contains the other and the threshold is at most 0.85, a candidate is returned with a score of at least 0.85 |
| UserMapper.MatchScoreInUnitInterval | src/user_mapper.py:119-133 | with a similarity ratio between 0 and 1 the returned score is between 0 and 1 |
| UserMapper.SuffixedNameMatchedExactly | src/user_mapper.py:103-119 | a suffixed username is matched with score 1.0 to the first email whose local part is its unsuffixed name |
| UserMapper.MatchedEmailIsCandidate | src/user_mapper.py:119-133 | a returned email is one of the candidates |
| UserMapper.BuildUserMappings | src/user_mapper.py:138-182 | the loop over the sorted usernames skips bots and appends each user whose search returned an email, giving the reference mapping list |
| UserMapper.PairedExact | src/user_mapper.py:158-169 | a mapping is emitted exactly for a visited user and the email it is mapped to |
| UserMapper.MappingsExact | src/user_mapper.py:156-169 | a mapping is emitted exactly for a visited non-bot user whose search returned a non-empty email, paired with that email |
| UserMapper.PairedInOrder | src/user_mapper.py:158 | users visited in strictly ascending order give mappings in strictly ascending order of username |
| UserMapper.UserMappingsInOrder | src/user_mapper.py:158 | the mappings are in strictly ascending order of GitHub username, one per user at most |
| UserMapper.UserMappingsExact | src/user_mapper.py:145-169 | the mapping list holds exactly one mapping for each non-bot user the search gives an email, and nothing else |
| UserMapper.UserMappingsFromCandidates | src/user_mapper.py:163-168 | every mapped Jira email is one of the candidate emails |
| UserMapper.UserMappingsOfSameSet | src/user_mapper.py:145-158 | the mapping list depends on the set of usernames only, not on how it is listed |
| UserMappingService.MappingsIn | src/user_mapping/user_mapping_service.py:33-37 | one mapping per row, in file order, with a missing column read as "" |
| UserMappingService.ReadMappings | src/user_mapping/user_mapping_service.py:30-37 | the reading loop gives the reference mappings of the rows |
| UserMappingService.ReadWrittenMappings | src/user_mapping/user_mapping_service.py:33-37 | rows holding both columns read back as the mappings they were written from |
| UserMappingService.FirstMatchExact | src/user_mapping/user_mapping_service.py:58-62 | a lookup finds something exactly when some mapping matches ignoring case, and then gives the value of the first that does |
| UserMappingService.FirstMatchOfListed | src/user_mapping/user_mapping_service.py:58-62 | when keys are distinct ignoring case, looking up a mapping's key gives that mapping's value |
| UserMappingService.Search | src/user_mapping/user_mapping_service.py:58-62 | the loop returns at the first mapping matching ignoring case, none otherwise |
| UserMappingService.MappingCache.constructor | src/user_mapping/user_mapping_service.py:9-10 | the cache and its mtime start empty |
| UserMappingService.MappingCache.GetUserMappings | src/user_mapping/user_mapping_service.py:13-43 | no file gives no mappings and leaves the cache alone; a cache filled at the current mtime is served unchanged; otherwise the rows are read and cached with the mtime |
| UserMappingService.MappingCache.GetJiraEmailForGithubUser | src/user_mapping/user_mapping_service.py:46-62 | the Jira email of the first served mapping whose username matches ignoring case; none without a file and the cache unchanged; with a file, the served mappings cached at its mtime |
| UserMappingService.MappingCache.GetGithubUserForJiraEmail | src/user_mapping/user_mapping_service.py:65-81 | the username of the first served mapping whose email matches ignoring case; none without a file and the cache unchanged; with a file, the served mappings cached at its mtime |
| UserMappingService.MappingCache.ClearCache | src/user_mapping/user_mapping_service.py:84-88 | both cache fields are emptied |
| UserMappingService.ReloadAfterClear | src/user_mapping/user_mapping_service.py:84-88 | after a clear the next call reads and caches the file's rows, whatever was cached |
| UserMappingService.ServeTwice | src/user_mapping/user_mapping_service.py:26-28 | two calls on an unchanged file serve the same mappings |
| UserMappingService.LookupTwice | src/user_mapping/user_mapping_service.py:46-62 | two email lookups for one user on an unchanged file give the same answer |

## Left out

- Network clients (`GraphQLClient.execute`, `JiraClient`, `requests`): GraphQL responses and Jira issues are inputs. Cursor pages are a given sequence of pages.
- `_get_org_repos` in both GitHub fetchers: the repository listing of an organisation is an input. In the pull-request fetcher it is None when the listing raised. In the commit fetcher a listing that raised is modelled as the empty listing, because `fetch_org_commits` catches the error and stores the empty result, which is what an empty listing gives.
- GithubFetcher.OrgCommitCache.FetchOrgCommits: a repository whose fetch or cache file raises partway through the loop is not modelled (every listed repository is read). The source then stores the repositories read before the error.
- `JiraFetcher.fetch_all_issues` and `_fetch_issues_paginated`: raw issues are inputs to `TransformIssue`.
- File I/O (`json`, `csv.DictReader`/`DictWriter`, `mkdir`, `glob`, `stat`): a file is a sequence of rows or records, and an mtime is an `int`. An exception while reading a repository cache file is not modelled; the model reads the cache or the fetch as one input.
- Typed CSV cells: `int()` and `float()` raising `ValueError` on a malformed export is not modelled. Cells hold their values, and an empty cell is None where the code tests for that. A `DictReader` short row is read as missing columns.
- `get_jira_cycles` (reading the cycles CSV), `load_cached_issues`, `load_all_org_commits` and `load_all_pr_data`: file reading, so their results are inputs.
- `get_unique_github_usernames` and `get_unique_jira_emails`: CSV reading. Their sets are inputs, passed as sequences. The set of GitHub users is visited sorted, as the code does. The set of emails is visited in the sequence's order, which stands for Python's set iteration order.
- `save_mappings_to_config`, the `main` functions and every `print`: output only.
- `DataProcessor.process_all_users` (`src/github/github_processor.py:84-104`): a loop applying the modelled `process_commits` and `calculate_summary` per user. It is not modelled separately.
- Flask endpoints: their `{"error": ...}` responses on an exception, and the `/cycles` endpoint beyond its email filter (`JiraApi.ForEmail`).
- Timestamp parsing (`datetime.fromisoformat`, the `strptime` format list, the removal of time zones): a parameter from text to whole seconds. Sub-second parts, and timezone offsets dropped before subtraction, are that parameter's business.
- `datetime.now()` and the cutoff date: parameters.
- `difflib.SequenceMatcher(...).ratio()`: the parameter `sim`. `UserMapper.MatchScoreInUnitInterval` assumes its values lie in [0, 1].
- Floating point: hours, means and medians are exact reals.
- JiraApi.Hundredths: rounds half away from zero on whole seconds. Python's `round` on the binary float is not modelled at ties.
- JiraApi.GetJiraStats: the mean, median, minimum and maximum are not rounded to two decimals. The same holds for `GetJiraStatsByUser` and `GetJiraStatsMonthly`.
- Lowercasing is ASCII-only (`Base.Lower`). Python's Unicode case mapping of other letters is not modelled.
- Dict order: a `dict` built in insertion order is a sequence in that order, or a map with its key order. `set` contents converted with `list(...)` are listed in first-seen order. Python's order for them is unspecified.
- Repository names that appear twice in one organisation's listing: the model keeps one entry per listed repository, in listing order. Python's dict keeps a single entry, at the first position and with the later value.
- A JSON `null` where the code uses `.get(k, 0)`: Python then gives None and the model gives the value as read. Only a missing key defaults to 0.
- A Jira issue whose `issuetype` or `status` is `null`: `_transform_issue` then raises `AttributeError`. The model reads each as an optional name. A missing, null or empty assignee is modelled, as no assignee.
- A Jira transition without a `created` time: Python's sort would compare None with text and raise. The model gives every history entry a timestamp.
- A CSV cell read as None by `DictReader` in `user_mapping_service.py` (`.lower()` on None raises): the model reads a missing column as "".
- `fetch_all_org_prs` makes a new `OrgPRCache` on every call: the model's `FetchAllOrgPrs` takes the cache as a parameter, so the fresh cache is the case where its memo is empty.
- `generated_at` timestamps in the dashboard cache and the PR export: clock values, not modelled.
- The top-level `src/github_fetcher.py` (PyGithub wrapper), `src/exporter.py`, `src/api/admin.py`, `src/config.py`, `src/app.py` and `src/routes.py`: I/O and wiring, not part of this model.

## Findings

| source | as written | input that shows it | evidently intended | confidence | as-written member | corrected member |
|---|---|---|---|---|---|---|
| src/cache_builder.py:9,115-116 | `cache_builder.py` imports the `DataProcessor` of `src/data_processor.py`, whose `process_commits` and `calculate_summary` take no username, and then calls both with a username; the call raises `TypeError`. The load path calls `calculate_summary(daily_stats, username)` at line 187 and raises likewise | any cached commit with a user author such as `alice` for the build; any non-empty cache file for the load | the username-aware `DataProcessor` of `src/github/github_processor.py`, which both files otherwise mirror | not executed | CommitCache.CacheBuilderBuildAsWritten, CommitCache.CacheBuilderLoadAsWritten, CommitCache.CacheBuilderFailsWithAUser | CommitCache.BuildDashboardCache, CommitCache.LoadDashboardCache, CommitCache.LoadOfBuild |

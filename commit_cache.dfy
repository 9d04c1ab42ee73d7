/** The dashboard cache over the per-organisation commit cache: `filter_commits_by_user`,
    `get_all_users_from_commits`, the CSV rows written by `build_dashboard_cache` and the
    entries rebuilt by `load_dashboard_cache`. `github_processor.py` and `cache_builder.py`
    hold the same code and differ in the CSV path. The commit cache is a list of
    organisations, each with its repositories' commit lists in dictionary order. The CSV file
    is a list of typed rows; number formatting is not modelled. */
module CommitCache {
  import opened Base
  import opened Grouping
  import opened Sorting
  import opened GithubFetcher
  import opened DataProcessor

  datatype OrgRepos = OrgRepos(name: string, repos: seq<RepoCommits>)

  /** Every cached commit, organisation by organisation, repository by repository. */
  function AllCommits(orgs: seq<OrgRepos>): seq<Commit> {
    if orgs == [] then [] else AllCommits(orgs[..|orgs| - 1]) + Flatten(orgs[|orgs| - 1].repos)
  }

  /** The visiting order of the three nested loops: the commits seen before commit k of
      repository j of organisation i. */
  lemma CommitStep(a: seq<Commit>, cs: seq<Commit>, k: nat)
    requires k < |cs|
    ensures (a + cs[..k]) + [cs[k]] == a + cs[..k + 1]
  {
    assert cs[..k + 1] == cs[..k] + [cs[k]];
  }

  lemma RepoStep(a: seq<Commit>, repos: seq<RepoCommits>, j: nat)
    requires j < |repos|
    ensures a + Flatten(repos[..j]) + repos[j].commits == a + Flatten(repos[..j + 1])
  {
    assert repos[..j + 1][..j] == repos[..j];
  }

  lemma OrgStep(orgs: seq<OrgRepos>, i: nat)
    requires i < |orgs|
    ensures AllCommits(orgs[..i]) + Flatten(orgs[i].repos) == AllCommits(orgs[..i + 1])
  {
    assert orgs[..i + 1][..i] == orgs[..i];
  }

  lemma StartOfRepos(a: seq<Commit>, repos: seq<RepoCommits>)
    ensures a + Flatten(repos[..0]) == a
  {
    assert repos[..0] == [];
  }

  lemma StartOfCommits(a: seq<Commit>, cs: seq<Commit>)
    ensures a + cs[..0] == a
  {
  }

  // ---------------------------------------------------------------------------------------
  // filter_commits_by_user

  /** What `filter_commits_by_user` returns: the commits whose author equals the username
      case-insensitively, in traversal order, keeping the first commit of every sha. */
  function UserCommits(orgs: seq<OrgRepos>, username: string): seq<Commit> {
    DedupSha(ByAuthor(AllCommits(orgs), username))
  }

  /** One commit of the filter loop: a matching commit with an unseen sha is kept. */
  lemma FilterStep(visited: seq<Commit>, c: Commit, username: string)
    ensures var b := ByAuthor(visited, username);
            var matched := Lower(c.author) == Lower(username);
            && DedupSha(ByAuthor(visited + [c], username))
               == (if matched && c.sha !in Shas(b) then DedupSha(b) + [c] else DedupSha(b))
            && Shas(ByAuthor(visited + [c], username)) == (if matched then Shas(b) + {c.sha} else Shas(b))
  {
    var b := ByAuthor(visited, username);
    BucketSnoc(visited, c, AuthorKey, Lower(username));
    if Lower(c.author) == Lower(username) {
      assert ByAuthor(visited + [c], username) == b + [c];
      assert (b + [c])[..|b|] == b;
      ShasSnoc(b, c);
    } else {
      assert ByAuthor(visited + [c], username) == b + [];
      assert b + [] == b;
    }
  }

  /** One turn of the innermost filter loop, stated on the loop's own variables. */
  lemma FilterCommitStep(visited: seq<Commit>, cs: seq<Commit>, k: nat, username: string,
                         kept: seq<Commit>, shas: set<string>)
    requires k < |cs|
    requires kept == DedupSha(ByAuthor(visited + cs[..k], username))
    requires shas == Shas(ByAuthor(visited + cs[..k], username))
    ensures var c := cs[k];
            var matched := Lower(c.author) == Lower(username);
            && (if matched && c.sha !in shas then kept + [c] else kept)
               == DedupSha(ByAuthor(visited + cs[..k + 1], username))
            && (if matched && c.sha !in shas then shas + {c.sha} else shas)
               == Shas(ByAuthor(visited + cs[..k + 1], username))
  {
    FilterStep(visited + cs[..k], cs[k], username);
    CommitStep(visited, cs, k);
  }

  /** The innermost loop of `filter_commits_by_user`, over one repository's commits. */
  method FilterCommits(cs: seq<Commit>, username: string, kept: seq<Commit>, shas: set<string>, ghost visited: seq<Commit>)
    returns (userCommits: seq<Commit>, seen: set<string>)
    requires kept == DedupSha(ByAuthor(visited, username))
    requires shas == Shas(ByAuthor(visited, username))
    ensures userCommits == DedupSha(ByAuthor(visited + cs, username))
    ensures seen == Shas(ByAuthor(visited + cs, username))
  {
    userCommits, seen := kept, shas;
    var key := Lower(username);
    StartOfCommits(visited, cs);
    for k := 0 to |cs|
      invariant userCommits == DedupSha(ByAuthor(visited + cs[..k], username))
      invariant seen == Shas(ByAuthor(visited + cs[..k], username))
    {
      var c := cs[k];
      FilterCommitStep(visited, cs, k, username, userCommits, seen);
      if Lower(c.author) == key {
        if c.sha !in seen {
          userCommits := userCommits + [c];
          seen := seen + {c.sha};
        }
      }
    }
    assert cs[..|cs|] == cs;
  }

  /** The middle loop of `filter_commits_by_user`, over one organisation's repositories. */
  method FilterRepos(repos: seq<RepoCommits>, username: string, kept: seq<Commit>, shas: set<string>, ghost visited: seq<Commit>)
    returns (userCommits: seq<Commit>, seen: set<string>)
    requires kept == DedupSha(ByAuthor(visited, username))
    requires shas == Shas(ByAuthor(visited, username))
    ensures userCommits == DedupSha(ByAuthor(visited + Flatten(repos), username))
    ensures seen == Shas(ByAuthor(visited + Flatten(repos), username))
  {
    userCommits, seen := kept, shas;
    StartOfRepos(visited, repos);
    for j := 0 to |repos|
      invariant userCommits == DedupSha(ByAuthor(visited + Flatten(repos[..j]), username))
      invariant seen == Shas(ByAuthor(visited + Flatten(repos[..j]), username))
    {
      userCommits, seen := FilterCommits(repos[j].commits, username, userCommits, seen, visited + Flatten(repos[..j]));
      RepoStep(visited, repos, j);
    }
    assert repos[..|repos|] == repos;
  }

  /** `filter_commits_by_user`: three nested loops over organisations, repositories and
      commits, growing the kept list and the set of seen shas. */
  method FilterCommitsByUser(orgs: seq<OrgRepos>, username: string) returns (userCommits: seq<Commit>)
    ensures userCommits == UserCommits(orgs, username)
  {
    userCommits := [];
    var seen: set<string> := {};
    for i := 0 to |orgs|
      invariant userCommits == DedupSha(ByAuthor(AllCommits(orgs[..i]), username))
      invariant seen == Shas(ByAuthor(AllCommits(orgs[..i]), username))
    {
      userCommits, seen := FilterRepos(orgs[i].repos, username, userCommits, seen, AllCommits(orgs[..i]));
      OrgStep(orgs, i);
    }
    assert orgs[..|orgs|] == orgs;
  }

  /** The filtered commits all belong to the user, carry pairwise distinct shas, and each is
      the first commit with its sha among the user's commits in traversal order. */
  lemma UserCommitsMatch(orgs: seq<OrgRepos>, username: string)
    ensures forall c :: c in UserCommits(orgs, username) ==>
              c in AllCommits(orgs) && SameIgnoringCase(c.author, username)
    ensures DistinctShas(UserCommits(orgs, username))
    ensures forall c :: c in UserCommits(orgs, username) ==>
              var b := ByAuthor(AllCommits(orgs), username);
              c.sha in Shas(b) && c == b[FirstWithSha(b, c.sha)]
  {
    var b := ByAuthor(AllCommits(orgs), username);
    DedupShaSubset(b);
    DedupShaDistinct(b);
    DedupShaKeepsFirst(b);
    forall c | c in UserCommits(orgs, username)
      ensures c in AllCommits(orgs) && SameIgnoringCase(c.author, username)
    {
      ByAuthorMembers(AllCommits(orgs), username, c);
    }
  }

  /** Nothing of the user is lost: every sha among the user's commits is kept once. */
  lemma UserCommitsKeepEverySha(orgs: seq<OrgRepos>, username: string)
    ensures Shas(UserCommits(orgs, username)) == Shas(ByAuthor(AllCommits(orgs), username))
  {
    DedupShaDistinct(ByAuthor(AllCommits(orgs), username));
  }

  // ---------------------------------------------------------------------------------------
  // get_all_users_from_commits

  /** An author that counts as a user: non-empty, and not "unknown" in any case. */
  predicate IsUser(author: string) {
    author != "" && Lower(author) != "unknown"
  }

  /** The user authors of a commit list, one per commit, in order. */
  function UserAuthors(cs: seq<Commit>): seq<string> {
    if cs == [] then []
    else
      var last := cs[|cs| - 1];
      UserAuthors(cs[..|cs| - 1]) + (if IsUser(last.author) then [last.author] else [])
  }

  /** `get_all_users_from_commits`: the set of user authors, sorted. */
  function UserList(orgs: seq<OrgRepos>): seq<string> {
    SortStrings(Distinct(UserAuthors(AllCommits(orgs))))
  }

  lemma UserAuthorsSnoc(cs: seq<Commit>, c: Commit)
    ensures UserAuthors(cs + [c]) == UserAuthors(cs) + (if IsUser(c.author) then [c.author] else [])
  {
    assert (cs + [c])[..|cs|] == cs;
  }

  /** One commit of the users loop: `users.add(author)` for a user author. */
  lemma UsersStep(visited: seq<Commit>, c: Commit)
    ensures var d := Distinct(UserAuthors(visited));
            Distinct(UserAuthors(visited + [c])) == if IsUser(c.author) && c.author !in d then d + [c.author] else d
  {
    UserAuthorsSnoc(visited, c);
    if IsUser(c.author) {
      DistinctSnoc(UserAuthors(visited), c.author);
    } else {
      assert UserAuthors(visited) + [] == UserAuthors(visited);
    }
  }

  /** The innermost loop of `get_all_users_from_commits`, over one repository's commits. */
  method UsersOfCommits(cs: seq<Commit>, users: seq<string>, ghost visited: seq<Commit>) returns (found: seq<string>)
    requires users == Distinct(UserAuthors(visited))
    ensures found == Distinct(UserAuthors(visited + cs))
  {
    found := users;
    StartOfCommits(visited, cs);
    for k := 0 to |cs|
      invariant found == Distinct(UserAuthors(visited + cs[..k]))
    {
      var author := cs[k].author;
      UsersStep(visited + cs[..k], cs[k]);
      if author != "" && Lower(author) != "unknown" {
        if author !in found {
          found := found + [author];
        }
      }
      CommitStep(visited, cs, k);
    }
    assert cs[..|cs|] == cs;
  }

  /** The middle loop of `get_all_users_from_commits`, over one organisation's repositories. */
  method UsersOfRepos(repos: seq<RepoCommits>, users: seq<string>, ghost visited: seq<Commit>) returns (found: seq<string>)
    requires users == Distinct(UserAuthors(visited))
    ensures found == Distinct(UserAuthors(visited + Flatten(repos)))
  {
    found := users;
    StartOfRepos(visited, repos);
    for j := 0 to |repos|
      invariant found == Distinct(UserAuthors(visited + Flatten(repos[..j])))
    {
      found := UsersOfCommits(repos[j].commits, found, visited + Flatten(repos[..j]));
      RepoStep(visited, repos, j);
    }
    assert repos[..|repos|] == repos;
  }

  /** The users set is kept as the list of its members in order of first addition; the
      result is the sorted list. */
  method GetAllUsersFromCommits(orgs: seq<OrgRepos>) returns (users: seq<string>)
    ensures users == UserList(orgs)
  {
    var found: seq<string> := [];
    for i := 0 to |orgs|
      invariant found == Distinct(UserAuthors(AllCommits(orgs[..i])))
    {
      found := UsersOfRepos(orgs[i].repos, found, AllCommits(orgs[..i]));
      OrgStep(orgs, i);
    }
    assert orgs[..|orgs|] == orgs;
    users := SortStrings(found);
  }

  lemma {:induction false} UserAuthorsElems(cs: seq<Commit>)
    ensures Elems(UserAuthors(cs)) == set c | c in cs && IsUser(c.author) :: c.author
  {
    if cs != [] {
      var init, last := cs[..|cs| - 1], cs[|cs| - 1];
      UserAuthorsElems(init);
      assert cs == init + [last];
      assert forall c :: c in cs <==> c in init || c == last;
      var rest := if IsUser(last.author) then [last.author] else [];
      assert Elems(UserAuthors(cs)) == Elems(UserAuthors(init)) + Elems(rest);
    }
  }

  /** The user list is strictly ascending (so sorted and without repeats) and holds exactly
      the non-empty authors that are not "unknown" in any case. */
  lemma UserListIsSortedSet(orgs: seq<OrgRepos>)
    ensures StrictlySorted(UserList(orgs))
    ensures Elems(UserList(orgs)) == set c | c in AllCommits(orgs) && IsUser(c.author) :: c.author
  {
    var authors := UserAuthors(AllCommits(orgs));
    DistinctElems(authors);
    SortStringsStrict(Distinct(authors));
    UserAuthorsElems(AllCommits(orgs));
  }

  /** Every listed user has at least one commit of their own. */
  lemma ListedUserHasCommits(orgs: seq<OrgRepos>, u: string)
    requires u in UserList(orgs)
    ensures IsUser(u)
    ensures UserCommits(orgs, u) != []
  {
    UserListIsSortedSet(orgs);
    assert u in Elems(UserList(orgs));
    var c :| c in AllCommits(orgs) && IsUser(c.author) && c.author == u;
    ByAuthorMembers(AllCommits(orgs), u, c);
    var b := ByAuthor(AllCommits(orgs), u);
    assert c.sha in Shas(b);
    DedupShaDistinct(b);
  }

  // ---------------------------------------------------------------------------------------
  // CSV rows

  /** One CSV row of the dashboard cache. */
  datatype CsvRow = CsvRow(username: string, date: string, commits: int, additions: int,
                           deletions: int, netLines: int, repositories: string)

  /** The header written by `writeheader`, in column order. */
  const FieldNames: seq<string> :=
    ["username", "date", "commits", "additions", "deletions", "net_lines", "repositories"]

  datatype Cell = Text(text: string) | Number(value: int)

  /** `DictWriter.writerow`: the row's cells in the order of FieldNames. */
  function Cells(r: CsvRow): (cells: seq<Cell>)
    ensures |cells| == |FieldNames|
  {
    [Text(r.username), Text(r.date), Number(r.commits), Number(r.additions),
     Number(r.deletions), Number(r.netLines), Text(r.repositories)]
  }

  /** The cell under the first header entry called name, as `DictReader` pairs them. */
  function Column(header: seq<string>, cells: seq<Cell>, name: string): Option<Cell> {
    if header == [] || cells == [] then None
    else if header[0] == name then Some(cells[0])
    else Column(header[1..], cells[1..], name)
  }

  /** A `DictReader` row read back by column name; None when a column is missing or does not
      hold a number where one is expected (`int()` would raise). */
  function ReadRow(header: seq<string>, cells: seq<Cell>): Option<CsvRow> {
    match (Column(header, cells, "username"), Column(header, cells, "date"),
           Column(header, cells, "commits"), Column(header, cells, "additions"),
           Column(header, cells, "deletions"), Column(header, cells, "net_lines"),
           Column(header, cells, "repositories"))
    case (Some(Text(u)), Some(Text(d)), Some(Number(c)), Some(Number(a)), Some(Number(x)),
          Some(Number(n)), Some(Text(rs))) => Some(CsvRow(u, d, c, a, x, n, rs))
    case _ => None
  }

  /** A row written under the fixed header reads back as the same row. */
  lemma ReadWrittenRow(r: CsvRow)
    ensures ReadRow(FieldNames, Cells(r)) == Some(r)
  {
    var cells := Cells(r);
    ColumnAt(FieldNames, cells, 0, "username");
    ColumnAt(FieldNames, cells, 1, "date");
    ColumnAt(FieldNames, cells, 2, "commits");
    ColumnAt(FieldNames, cells, 3, "additions");
    ColumnAt(FieldNames, cells, 4, "deletions");
    ColumnAt(FieldNames, cells, 5, "net_lines");
    ColumnAt(FieldNames, cells, 6, "repositories");
  }

  lemma {:induction false} ColumnAt(header: seq<string>, cells: seq<Cell>, i: nat, name: string)
    requires i < |header| && i < |cells| && header[i] == name
    requires forall j :: 0 <= j < i ==> header[j] != name
    ensures Column(header, cells, name) == Some(cells[i])
  {
    if i > 0 {
      ColumnAt(header[1..], cells[1..], i - 1, name);
    }
  }

  /** The row `build_dashboard_cache` writes for one day of one user. */
  function DayRow(username: string, day: DayStat): CsvRow {
    CsvRow(username, day.date, day.commits, day.additions, day.deletions, day.netLines,
           Join(day.repositories, ';'))
  }

  function DayRows(username: string, days: seq<DayStat>): (rows: seq<CsvRow>)
    ensures |rows| == |days|
    ensures forall i :: 0 <= i < |days| ==> rows[i] == DayRow(username, days[i])
  {
    if days == [] then [] else DayRows(username, days[..|days| - 1]) + [DayRow(username, days[|days| - 1])]
  }

  /** `csv_rows.append(...)` for every day of one user. */
  method RowsOfDays(username: string, days: seq<DayStat>) returns (rows: seq<CsvRow>)
    ensures rows == DayRows(username, days)
  {
    rows := [];
    for i := 0 to |days|
      invariant rows == DayRows(username, days[..i])
    {
      assert days[..i + 1][..i] == days[..i];
      rows := rows + [DayRow(username, days[i])];
    }
    assert days[..|days|] == days;
  }

  // ---------------------------------------------------------------------------------------
  // build_dashboard_cache

  /** A user's entry: daily statistics, summary and commit count. */
  datatype UserEntry = UserEntry(dailyStats: seq<DayStat>, summary: Summary, commitCount: int)

  function UserDays(orgs: seq<OrgRepos>, username: string): seq<DayStat> {
    DailyStats(UserCommits(orgs, username), Some(username))
  }

  /** The entry built for one user; the commit count is the number of filtered commits. */
  function BuiltEntry(orgs: seq<OrgRepos>, username: string): UserEntry {
    var days := UserDays(orgs, username);
    UserEntry(days, CalculateSummary(days, Some(username)), |UserCommits(orgs, username)|)
  }

  /** The rows written for the given users, user by user and day by day. */
  function BuiltRows(orgs: seq<OrgRepos>, users: seq<string>): seq<CsvRow> {
    if users == [] then []
    else
      var u := users[|users| - 1];
      BuiltRows(orgs, users[..|users| - 1]) + DayRows(u, UserDays(orgs, u))
  }

  /** `build_dashboard_cache` (the username variant of the processor): every listed user gets
      an entry, and one row per user and active day is written. The timestamp is not
      modelled. */
  method BuildDashboardCache(orgs: seq<OrgRepos>) returns (users: map<string, UserEntry>, rows: seq<CsvRow>)
    ensures users.Keys == Elems(UserList(orgs))
    ensures forall u :: u in users ==> users[u] == BuiltEntry(orgs, u)
    ensures rows == BuiltRows(orgs, UserList(orgs))
  {
    var names := GetAllUsersFromCommits(orgs);
    users, rows := BuildUsers(orgs, names);
  }

  /** The build loop over the user list. */
  method BuildUsers(orgs: seq<OrgRepos>, names: seq<string>) returns (users: map<string, UserEntry>, rows: seq<CsvRow>)
    ensures users.Keys == Elems(names)
    ensures forall u :: u in users ==> users[u] == BuiltEntry(orgs, u)
    ensures rows == BuiltRows(orgs, names)
  {
    users, rows := map[], [];
    for i := 0 to |names|
      invariant users.Keys == Elems(names[..i])
      invariant forall u :: u in users ==> users[u] == BuiltEntry(orgs, u)
      invariant rows == BuiltRows(orgs, names[..i])
    {
      var u := names[i];
      var entry, userRows := BuildUser(orgs, u);
      EntriesStep(orgs, users, u, entry);
      users := users[u := entry];
      BuiltRowsSnoc(orgs, names, i);
      ElemsPrefixSnoc(names, i);
      rows := rows + userRows;
    }
    assert names[..|names|] == names;
  }

  /** One user of the build loop: filter, process, summarise, and the user's rows. */
  method BuildUser(orgs: seq<OrgRepos>, u: string) returns (entry: UserEntry, userRows: seq<CsvRow>)
    ensures entry == BuiltEntry(orgs, u)
    ensures userRows == DayRows(u, UserDays(orgs, u))
  {
    var userCommits := FilterCommitsByUser(orgs, u);
    var days := ProcessCommits(userCommits, Some(u));
    var summary := CalculateSummary(days, Some(u));
    entry := UserEntry(days, summary, |userCommits|);
    userRows := RowsOfDays(u, days);
  }

  lemma EntriesStep(orgs: seq<OrgRepos>, users: map<string, UserEntry>, u: string, entry: UserEntry)
    requires forall x :: x in users ==> users[x] == BuiltEntry(orgs, x)
    requires entry == BuiltEntry(orgs, u)
    ensures forall x :: x in users[u := entry] ==> users[u := entry][x] == BuiltEntry(orgs, x)
  {
  }

  lemma BuiltRowsSnoc(orgs: seq<OrgRepos>, names: seq<string>, i: nat)
    requires i < |names|
    ensures BuiltRows(orgs, names[..i + 1])
            == BuiltRows(orgs, names[..i]) + DayRows(names[i], UserDays(orgs, names[i]))
  {
    assert names[..i + 1][..i] == names[..i];
  }

  /** Every written row for a day of the user holds the day's figures, and the repositories
      cell is the `;`-join of the day's repositories. */
  lemma BuiltRowsHoldDays(orgs: seq<OrgRepos>, u: string, i: nat)
    requires i < |UserDays(orgs, u)|
    ensures var day := UserDays(orgs, u)[i];
            var r := DayRows(u, UserDays(orgs, u))[i];
            && r.username == u && r.date == day.date && r.commits == day.commits
            && r.additions == day.additions && r.deletions == day.deletions
            && r.netLines == day.additions - day.deletions
            && r.repositories == Join(day.repositories, ';')
  {
    DayFigures(UserCommits(orgs, u), Some(u), i);
  }

  // ---------------------------------------------------------------------------------------
  // load_dashboard_cache

  function RowUser(r: CsvRow): string { r.username }

  function RowDates(rows: seq<CsvRow>): seq<string> {
    if rows == [] then [] else RowDates(rows[..|rows| - 1]) + [rows[|rows| - 1].date]
  }

  /** `row["repositories"].split(";") if row["repositories"] else []`. */
  function ParseRepositories(cell: string): seq<string> {
    if cell != "" then Split(cell, ';') else []
  }

  /** The day record a row loads as; the row's username is stored on it. */
  function ParseRow(r: CsvRow): DayStat {
    DayStat(r.date, r.additions, r.deletions, r.netLines, r.commits,
            ParseRepositories(r.repositories), Some(r.username))
  }

  /** One user's rows as the dictionary of days: a later row for a date replaces an earlier
      one. */
  function DayMap(rows: seq<CsvRow>): map<string, DayStat> {
    if rows == [] then map[]
    else DayMap(rows[..|rows| - 1])[rows[|rows| - 1].date := ParseRow(rows[|rows| - 1])]
  }

  /** The days stored under the given dates, in that order. */
  function DaysAt(m: map<string, DayStat>, dates: seq<string>): seq<DayStat> {
    if dates == [] then []
    else
      var d := dates[|dates| - 1];
      DaysAt(m, dates[..|dates| - 1]) + (if d in m then [m[d]] else [])
  }

  /** The days loaded for one user: their rows' dates, without repeats, sorted. */
  function LoadedDays(rows: seq<CsvRow>, username: string): seq<DayStat> {
    var mine := Bucket(rows, RowUser, username);
    DaysAt(DayMap(mine), SortStrings(Distinct(RowDates(mine))))
  }

  /** The entry loaded for one user; its commit count is the sum of the daily counts. */
  function LoadedEntry(rows: seq<CsvRow>, username: string): UserEntry {
    var days := LoadedDays(rows, username);
    UserEntry(days, CalculateSummary(days, Some(username)), CommitsOfDays(days))
  }

  lemma RowDatesSnoc(rows: seq<CsvRow>, r: CsvRow)
    ensures RowDates(rows + [r]) == RowDates(rows) + [r.date]
  {
    assert (rows + [r])[..|rows|] == rows;
  }

  lemma {:induction false} DayMapKeys(rows: seq<CsvRow>)
    ensures DayMap(rows).Keys == Elems(RowDates(rows))
  {
    if rows != [] {
      var init := rows[..|rows| - 1];
      DayMapKeys(init);
      assert RowDates(rows) == RowDates(init) + [rows[|rows| - 1].date];
    }
  }

  /** The state of the reading loop after some rows: the users met so far, and for each the
      dictionary of days and its keys in insertion order. */
  ghost predicate ReadSoFar(rows: seq<CsvRow>, daily: map<string, map<string, DayStat>>,
                            order: map<string, seq<string>>, users: seq<string>) {
    UsersRead(rows, daily, order, users) && DaysRead(rows, daily, order)
  }

  ghost predicate UsersRead(rows: seq<CsvRow>, daily: map<string, map<string, DayStat>>,
                            order: map<string, seq<string>>, users: seq<string>) {
    && daily.Keys == KeysOf(rows, RowUser)
    && order.Keys == daily.Keys
    && Elems(users) == daily.Keys
  }

  ghost predicate DaysRead(rows: seq<CsvRow>, daily: map<string, map<string, DayStat>>,
                           order: map<string, seq<string>>) {
    forall u :: u in daily && u in order ==>
      && daily[u] == DayMap(Bucket(rows, RowUser, u))
      && order[u] == Distinct(RowDates(Bucket(rows, RowUser, u)))
  }

  /** The reading loop's step for the user of the new row: its dictionary of days gets the
      row's day under the row's date, and a new date is appended to the key order. */
  lemma ReadStepSameUser(rows: seq<CsvRow>, r: CsvRow, inner: map<string, DayStat>, dates: seq<string>)
    requires inner == DayMap(Bucket(rows, RowUser, r.username))
    requires dates == Distinct(RowDates(Bucket(rows, RowUser, r.username)))
    ensures var b := Bucket(rows + [r], RowUser, r.username);
            && inner[r.date := ParseRow(r)] == DayMap(b)
            && (if r.date in inner then dates else dates + [r.date]) == Distinct(RowDates(b))
  {
    var b := Bucket(rows, RowUser, r.username);
    BucketSnoc(rows, r, RowUser, r.username);
    assert Bucket(rows + [r], RowUser, r.username) == b + [r];
    DayMapSnoc(b, r);
    DatesSnoc(b, r);
  }

  lemma DayMapSnoc(b: seq<CsvRow>, r: CsvRow)
    ensures DayMap(b + [r]) == DayMap(b)[r.date := ParseRow(r)]
  {
    assert (b + [r])[..|b|] == b;
  }

  lemma DatesSnoc(b: seq<CsvRow>, r: CsvRow)
    ensures Distinct(RowDates(b + [r]))
            == if r.date in DayMap(b) then Distinct(RowDates(b)) else Distinct(RowDates(b)) + [r.date]
  {
    RowDatesSnoc(b, r);
    DistinctSnoc(RowDates(b), r.date);
    DayMapKeys(b);
    DistinctElems(RowDates(b));
    assert r.date in DayMap(b) <==> r.date in Elems(Distinct(RowDates(b)));
  }

  lemma ReadStepOtherUser(rows: seq<CsvRow>, r: CsvRow, u: string)
    requires u != r.username
    ensures Bucket(rows + [r], RowUser, u) == Bucket(rows, RowUser, u)
  {
    BucketSnoc(rows, r, RowUser, u);
    assert Bucket(rows, RowUser, u) + [] == Bucket(rows, RowUser, u);
  }

  lemma ReadStep(rows: seq<CsvRow>, i: nat, r: CsvRow, daily: map<string, map<string, DayStat>>,
                 order: map<string, seq<string>>, users: seq<string>,
                 daily': map<string, map<string, DayStat>>, order': map<string, seq<string>>,
                 users': seq<string>)
    requires i < |rows| && r == rows[i]
    requires ReadSoFar(rows[..i], daily, order, users)
    requires var inner := if r.username in daily then daily[r.username] else map[];
             var dates := if r.username in order then order[r.username] else [];
             && daily' == daily[r.username := inner[r.date := ParseRow(r)]]
             && order' == order[r.username := if r.date in inner then dates else dates + [r.date]]
             && users' == if r.username in daily then users else users + [r.username]
    ensures ReadSoFar(rows[..i + 1], daily', order', users')
  {
    var done := rows[..i];
    assert daily'.Keys == daily.Keys + {r.username} && order'.Keys == order.Keys + {r.username};
    ReadStepUsers(done, r, daily, order, users, daily', order', users');
    ReadStepDays(done, r, daily, order, users, daily', order');
    assert ReadSoFar(done + [r], daily', order', users');
    PrefixSnoc(rows, i);
  }

  lemma ReadStepUsers(rows: seq<CsvRow>, r: CsvRow, daily: map<string, map<string, DayStat>>,
                      order: map<string, seq<string>>, users: seq<string>,
                      daily': map<string, map<string, DayStat>>, order': map<string, seq<string>>,
                      users': seq<string>)
    requires UsersRead(rows, daily, order, users)
    requires daily'.Keys == daily.Keys + {r.username} && order'.Keys == order.Keys + {r.username}
    requires users' == if r.username in daily then users else users + [r.username]
    ensures UsersRead(rows + [r], daily', order', users')
  {
    KeysOfSnoc(rows, r, RowUser);
    if r.username !in daily {
      assert Elems(users') == Elems(users) + {r.username};
    }
  }

  lemma ReadStepDays(rows: seq<CsvRow>, r: CsvRow, daily: map<string, map<string, DayStat>>,
                     order: map<string, seq<string>>, users: seq<string>,
                     daily': map<string, map<string, DayStat>>, order': map<string, seq<string>>)
    requires ReadSoFar(rows, daily, order, users)
    requires var inner := if r.username in daily then daily[r.username] else map[];
             var dates := if r.username in order then order[r.username] else [];
             && daily' == daily[r.username := inner[r.date := ParseRow(r)]]
             && order' == order[r.username := if r.date in inner then dates else dates + [r.date]]
    ensures DaysRead(rows + [r], daily', order')
  {
    forall v | v in daily' && v in order'
      ensures daily'[v] == DayMap(Bucket(rows + [r], RowUser, v))
      ensures order'[v] == Distinct(RowDates(Bucket(rows + [r], RowUser, v)))
    {
      ReadStepAt(rows, r, daily, order, users, daily', order', v);
    }
  }

  /** The reading loop's step, for one user. */
  lemma ReadStepAt(rows: seq<CsvRow>, r: CsvRow, daily: map<string, map<string, DayStat>>,
                   order: map<string, seq<string>>, users: seq<string>,
                   daily': map<string, map<string, DayStat>>, order': map<string, seq<string>>, v: string)
    requires ReadSoFar(rows, daily, order, users)
    requires var inner := if r.username in daily then daily[r.username] else map[];
             var dates := if r.username in order then order[r.username] else [];
             && daily' == daily[r.username := inner[r.date := ParseRow(r)]]
             && order' == order[r.username := if r.date in inner then dates else dates + [r.date]]
    requires v in daily' && v in order'
    ensures daily'[v] == DayMap(Bucket(rows + [r], RowUser, v))
    ensures order'[v] == Distinct(RowDates(Bucket(rows + [r], RowUser, v)))
  {
    var u := r.username;
    if v == u {
      var inner := if u in daily then daily[u] else map[];
      var dates := if u in order then order[u] else [];
      ReadStepCurrent(rows, u, daily, order, users);
      ReadStepSameUser(rows, r, inner, dates);
    } else {
      ReadStepOtherUser(rows, r, v);
    }
  }

  /** What the loop holds for a user before the row: the user's days so far, none for a
      user not met yet. */
  lemma ReadStepCurrent(rows: seq<CsvRow>, u: string, daily: map<string, map<string, DayStat>>,
                        order: map<string, seq<string>>, users: seq<string>)
    requires ReadSoFar(rows, daily, order, users)
    ensures (if u in daily then daily[u] else map[]) == DayMap(Bucket(rows, RowUser, u))
    ensures (if u in order then order[u] else []) == Distinct(RowDates(Bucket(rows, RowUser, u)))
  {
    if u !in daily {
      BucketNonEmptyIffKey(rows, RowUser, u);
    }
  }

  /** The reading loop of `load_dashboard_cache`. */
  method ReadRows(rows: seq<CsvRow>)
    returns (daily: map<string, map<string, DayStat>>, order: map<string, seq<string>>, users: seq<string>)
    ensures ReadSoFar(rows, daily, order, users)
  {
    daily, order, users := map[], map[], [];
    for i := 0 to |rows|
      invariant ReadSoFar(rows[..i], daily, order, users)
    {
      var r := rows[i];
      var u := r.username;
      var inner := if u in daily then daily[u] else map[];
      var dates := if u in order then order[u] else [];
      var users' := if u in daily then users else users + [u];
      var order' := order[u := if r.date in inner then dates else dates + [r.date]];
      var daily' := daily[u := inner[r.date := ParseRow(r)]];
      ReadStep(rows, i, r, daily, order, users, daily', order', users');
      daily, order, users := daily', order', users';
    }
    assert rows[..|rows|] == rows;
  }

  lemma {:induction false} DaysAtValues(m: map<string, DayStat>, dates: seq<string>)
    requires forall i :: 0 <= i < |dates| ==> dates[i] in m
    ensures |DaysAt(m, dates)| == |dates|
    ensures forall i :: 0 <= i < |dates| ==> DaysAt(m, dates)[i] == m[dates[i]]
  {
    if dates != [] {
      DaysAtValues(m, dates[..|dates| - 1]);
    }
  }

  /** The sorted dates of a user's rows are keys of the user's dictionary of days. */
  lemma SortedDatesAreKeys(mine: seq<CsvRow>)
    ensures forall i :: 0 <= i < |SortStrings(Distinct(RowDates(mine)))| ==>
              SortStrings(Distinct(RowDates(mine)))[i] in DayMap(mine)
  {
    var sorted := SortStrings(Distinct(RowDates(mine)));
    SortByElems(Distinct(RowDates(mine)), Identity);
    DistinctElems(RowDates(mine));
    DayMapKeys(mine);
    assert forall i :: 0 <= i < |sorted| ==> sorted[i] in sorted;
  }

  /** `load_dashboard_cache`: None when the file is missing; otherwise an entry for every
      user with a row, holding their days sorted by date, the summary of those days and the
      sum of the daily commit counts. The file's timestamp is not modelled. */
  method LoadDashboardCache(file: Option<seq<CsvRow>>) returns (r: Option<map<string, UserEntry>>)
    ensures file.None? <==> r.None?
    ensures file.Some? ==> r.value.Keys == KeysOf(file.value, RowUser)
    ensures file.Some? ==> forall u :: u in r.value ==> r.value[u] == LoadedEntry(file.value, u)
  {
    if file.None? {
      return None;
    }
    var rows := file.value;
    var daily, order, users := ReadRows(rows);
    var result: map<string, UserEntry> := map[];
    for i := 0 to |users|
      invariant result.Keys == Elems(users[..i])
      invariant forall u :: u in result ==> result[u] == LoadedEntry(rows, u)
    {
      var u := users[i];
      assert u in Elems(users);
      var mine := Bucket(rows, RowUser, u);
      var dates := SortStrings(order[u]);
      SortedDatesAreKeys(mine);
      var days := ValuesAt(daily[u], dates);
      DaysAtValues(DayMap(mine), dates);
      assert days == LoadedDays(rows, u);
      result := result[u := UserEntry(days, CalculateSummary(days, Some(u)), CommitsOfDays(days))];
      ElemsPrefixSnoc(users, i);
    }
    assert users[..|users|] == users;
    r := Some(result);
  }

  /** A later row for the same user and date replaces the earlier one. */
  lemma LaterRowWins(rows: seq<CsvRow>, r: CsvRow)
    ensures r.date in DayMap(Bucket(rows + [r], RowUser, r.username))
    ensures DayMap(Bucket(rows + [r], RowUser, r.username))[r.date] == ParseRow(r)
  {
    var b := Bucket(rows, RowUser, r.username);
    BucketSnoc(rows, r, RowUser, r.username);
    assert (b + [r])[..|b|] == b;
  }

  /** Each user's loaded days are in strictly ascending date order, one per date of the
      user's rows, and the commit count is the sum of the days' counts. */
  lemma LoadedDaysSorted(rows: seq<CsvRow>, u: string)
    ensures StrictlySorted(Dates(LoadedDays(rows, u)))
    ensures Elems(Dates(LoadedDays(rows, u))) == Elems(RowDates(Bucket(rows, RowUser, u)))
    ensures LoadedEntry(rows, u).commitCount == CommitsOfDays(LoadedEntry(rows, u).dailyStats)
  {
    var mine := Bucket(rows, RowUser, u);
    var m := DayMap(mine);
    var sorted := SortStrings(Distinct(RowDates(mine)));
    DistinctElems(RowDates(mine));
    SortStringsStrict(Distinct(RowDates(mine)));
    SortedDatesAreKeys(mine);
    DaysAtValues(m, sorted);
    var days := LoadedDays(rows, u);
    forall i | 0 <= i < |days| ensures Dates(days)[i] == sorted[i] {
      DayMapDates(mine, sorted[i]);
    }
    assert Dates(days) == sorted;
  }

  /** A day stored under date d carries d as its date. */
  lemma {:induction false} DayMapDates(rows: seq<CsvRow>, d: string)
    requires d in DayMap(rows)
    ensures DayMap(rows)[d].date == d
  {
    if rows != [] && rows[|rows| - 1].date != d {
      DayMapDates(rows[..|rows| - 1], d);
    }
  }

  /** An empty repositories cell loads as no repositories; otherwise the cell is split on
      `;`, which gives back a list joined from names that contain no `;`. */
  lemma RepositoriesRoundTrip(names: seq<string>)
    requires forall i :: 0 <= i < |names| ==> names[i] != "" && ';' !in names[i]
    ensures ParseRepositories(Join(names, ';')) == names
    ensures ParseRepositories("") == []
  {
    if names != [] {
      SplitJoin(names, ';');
      assert Join(names, ';') != "" by {
        if |names| > 1 {
          assert |Join(names, ';')| >= |names[0]|;
        }
      }
    }
  }

  // ---------------------------------------------------------------------------------------
  // Building then loading

  /** A repository name that survives the `;`-join and split. */
  predicate GoodRepoName(name: string) {
    name != "" && ';' !in name
  }

  /** A day written as a row loads back as the same day, when the row's username is the
      day's and no repository name is empty or contains `;`. */
  lemma DayRoundTrip(u: string, day: DayStat)
    requires day.username == Some(u)
    requires forall k :: 0 <= k < |day.repositories| ==> GoodRepoName(day.repositories[k])
    ensures ParseRow(DayRow(u, day)) == day
  {
    RepositoriesRoundTrip(day.repositories);
  }

  /** The rows of one user's days hold only that user. */
  lemma {:induction false} BucketOfDayRows(v: string, days: seq<DayStat>, u: string)
    ensures Bucket(DayRows(v, days), RowUser, u) == if u == v then DayRows(v, days) else []
  {
    if days != [] {
      var init := days[..|days| - 1];
      BucketOfDayRows(v, init, u);
      BucketSnoc(DayRows(v, init), DayRow(v, days[|days| - 1]), RowUser, u);
      assert DayRows(v, days) == DayRows(v, init) + [DayRow(v, days[|days| - 1])];
    }
  }

  /** In the written rows, a user's rows are exactly the rows of that user's days. */
  lemma {:induction false} UserRowsOfBuilt(orgs: seq<OrgRepos>, names: seq<string>, u: string)
    requires NoDup(names)
    ensures Bucket(BuiltRows(orgs, names), RowUser, u)
            == if u in names then DayRows(u, UserDays(orgs, u)) else []
  {
    if names != [] {
      var init, v := names[..|names| - 1], names[|names| - 1];
      assert NoDup(init);
      UserRowsOfBuilt(orgs, init, u);
      BucketAppend(BuiltRows(orgs, init), DayRows(v, UserDays(orgs, v)), RowUser, u);
      BucketOfDayRows(v, UserDays(orgs, v), u);
      SplitLast(names);
      if u == v {
        assert u !in init;
      }
    }
  }

  lemma {:induction false} RowDatesOfDayRows(u: string, days: seq<DayStat>)
    ensures RowDates(DayRows(u, days)) == Dates(days)
  {
    if days != [] {
      var init := days[..|days| - 1];
      RowDatesOfDayRows(u, init);
      assert DayRows(u, days) == DayRows(u, init) + [DayRow(u, days[|days| - 1])];
      RowDatesSnoc(DayRows(u, init), DayRow(u, days[|days| - 1]));
      assert Dates(days) == Dates(init) + [days[|days| - 1].date];
    }
  }

  /** With distinct dates, the dictionary of a user's written days maps each date to the
      row of that day. */
  lemma {:induction false} DayMapOfDayRows(u: string, days: seq<DayStat>, i: nat)
    requires NoDup(Dates(days)) && i < |days|
    ensures days[i].date in DayMap(DayRows(u, days))
    ensures DayMap(DayRows(u, days))[days[i].date] == ParseRow(DayRow(u, days[i]))
  {
    var init, last := days[..|days| - 1], days[|days| - 1];
    assert DayRows(u, days) == DayRows(u, init) + [DayRow(u, last)];
    DayMapSnoc(DayRows(u, init), DayRow(u, last));
    if i < |init| {
      assert Dates(days)[i] != Dates(days)[|days| - 1];
      assert NoDup(Dates(init)) by {
        forall j, k | 0 <= j < k < |init| ensures Dates(init)[j] != Dates(init)[k] {
          assert Dates(days)[j] != Dates(days)[k];
        }
      }
      DayMapOfDayRows(u, init, i);
    }
  }

  /** The repositories of a user's days come from the cached commits. */
  lemma DayRepositoriesCached(orgs: seq<OrgRepos>, u: string, i: nat)
    requires forall c :: c in AllCommits(orgs) ==> GoodRepoName(c.repository)
    requires i < |UserDays(orgs, u)|
    ensures var day := UserDays(orgs, u)[i];
            forall k :: 0 <= k < |day.repositories| ==> GoodRepoName(day.repositories[k])
  {
    var cs := UserCommits(orgs, u);
    var day := UserDays(orgs, u)[i];
    var b := Bucket(cs, DayKey, day.date);
    DayRepositories(cs, Some(u), i);
    BucketMembers(cs, DayKey, day.date);
    DedupShaSubset(ByAuthor(AllCommits(orgs), u));
    BucketMembers(AllCommits(orgs), AuthorKey, Lower(u));
    forall k | 0 <= k < |day.repositories| ensures GoodRepoName(day.repositories[k]) {
      assert day.repositories[k] in Elems(day.repositories);
      var c :| c in b && c.repository == day.repositories[k];
      assert c in cs;
    }
  }

  /** A listed user's days read back from the written rows are the days that were built. */
  lemma UserDaysRoundTrip(orgs: seq<OrgRepos>, u: string)
    requires forall c :: c in AllCommits(orgs) ==> GoodRepoName(c.repository)
    requires u in UserList(orgs)
    ensures LoadedDays(BuiltRows(orgs, UserList(orgs)), u) == UserDays(orgs, u)
  {
    var names := UserList(orgs);
    var days := UserDays(orgs, u);
    UserListIsSortedSet(orgs);
    StrictlySortedNoDup(names);
    ListedUserHasCommits(orgs, u);
    UserRowsOfBuilt(orgs, names, u);
    var mine := DayRows(u, days);
    RowDatesOfDayRows(u, days);
    DailyStatsDates(UserCommits(orgs, u), Some(u));
    StrictlySortedNoDup(Dates(days));
    DistinctOfNoDup(Dates(days));
    SortStringsStrict(Dates(days));
    StrictlySortedUnique(SortStrings(Dates(days)), Dates(days));
    forall i | 0 <= i < |days|
      ensures Dates(days)[i] in DayMap(mine) && DayMap(mine)[Dates(days)[i]] == days[i]
    {
      DayMapOfDayRows(u, days, i);
      DayFigures(UserCommits(orgs, u), Some(u), i);
      DayRepositoriesCached(orgs, u, i);
      DayRoundTrip(u, days[i]);
    }
    DaysAtValues(DayMap(mine), Dates(days));
  }

  /** A listed user has at least one day, hence at least one row. */
  lemma ListedUserHasDays(orgs: seq<OrgRepos>, u: string)
    requires u in UserList(orgs)
    ensures UserDays(orgs, u) != []
  {
    var cs := UserCommits(orgs, u);
    ListedUserHasCommits(orgs, u);
    DailyStatsDates(cs, Some(u));
    BucketNonEmptyIffKey(cs, DayKey, DayKey(cs[0]));
    assert DayKey(cs[0]) in KeysOf(cs, DayKey);
  }

  /** Loading what the build wrote gives back exactly the built users, each with the built
      entry: the same days, the same summary and the same commit count (the number of
      filtered commits equals the sum of the daily counts), provided no repository name is
      empty or contains `;`. */
  lemma LoadOfBuild(orgs: seq<OrgRepos>)
    requires forall c :: c in AllCommits(orgs) ==> GoodRepoName(c.repository)
    ensures KeysOf(BuiltRows(orgs, UserList(orgs)), RowUser) == Elems(UserList(orgs))
    ensures forall u :: u in UserList(orgs) ==>
              LoadedEntry(BuiltRows(orgs, UserList(orgs)), u) == BuiltEntry(orgs, u)
  {
    var names := UserList(orgs);
    var rows := BuiltRows(orgs, names);
    UserListIsSortedSet(orgs);
    StrictlySortedNoDup(names);
    forall u ensures u in KeysOf(rows, RowUser) <==> u in names {
      BucketNonEmptyIffKey(rows, RowUser, u);
      UserRowsOfBuilt(orgs, names, u);
      if u in names {
        ListedUserHasDays(orgs, u);
      }
    }
    forall u | u in names ensures LoadedEntry(rows, u) == BuiltEntry(orgs, u) {
      UserDaysRoundTrip(orgs, u);
      DailyStatsConserve(UserCommits(orgs, u), Some(u));
    }
  }

  // ---------------------------------------------------------------------------------------
  // cache_builder.py as written

  /** `build_dashboard_cache` in `cache_builder.py` as written: it uses the processor of
      `data_processor.py`, whose `process_commits` and `calculate_summary` take no username,
      and passes one; the first user processed raises TypeError. */
  function CacheBuilderBuildAsWritten(orgs: seq<OrgRepos>): (r: Result<(map<string, UserEntry>, seq<CsvRow>)>)
    ensures r.Ok? ==> r.value == (map[], [])
  {
    if UserList(orgs) == [] then Ok((map[], []))
    else Err("TypeError")
  }

  /** `load_dashboard_cache` in `cache_builder.py` as written: None for a missing file; the
      first user with a row reaches `calculate_summary(daily_stats, username)` on the
      one-argument processor and raises TypeError. */
  function CacheBuilderLoadAsWritten(file: Option<seq<CsvRow>>): (r: Option<Result<map<string, UserEntry>>>)
    ensures file.None? <==> r.None?
    ensures r.Some? && r.value.Ok? ==> r.value.value == map[]
  {
    if file.None? then None
    else if file.value == [] then Some(Ok(map[]))
    else Some(Err("TypeError"))
  }

  /** As soon as one cached commit has a user author (alice, say), the build of
      `cache_builder.py` fails, and so does its load of any non-empty file. The
      username-aware build lists that author with at least one commit of their own (whose
      entry LoadOfBuild gives back from the rows). */
  lemma CacheBuilderFailsWithAUser(orgs: seq<OrgRepos>, c: Commit)
    requires c in AllCommits(orgs) && IsUser(c.author)
    ensures CacheBuilderBuildAsWritten(orgs).Err?
    ensures forall rows :: rows != [] ==> CacheBuilderLoadAsWritten(Some(rows)).value.Err?
    ensures c.author in UserList(orgs)
    ensures UserCommits(orgs, c.author) != []
  {
    UserListIsSortedSet(orgs);
    assert c.author in Elems(UserList(orgs));
    ListedUserHasCommits(orgs, c.author);
  }
}

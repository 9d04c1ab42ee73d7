/** The cycle-time statistics of the Jira endpoints: the hours of a cycle, the email filter,
    the overall statistics, the statistics per assignee and the statistics per month of
    completion. Cycles come from the cycles file, so every field is text ("" when it was
    empty). Timestamp parsing is a parameter from text to whole seconds, None when no
    accepted format matches. */
module JiraApi {
  import opened Base
  import opened Grouping
  import opened Sorting
  import opened Stats

  /** One row of the cycles file. */
  datatype CycleRow = CycleRow(key: string, assigneeEmail: string, inProgressAt: string, outOfProgressAt: string)

  /** round(seconds / 3600, 2) in hundredths of an hour: the nearest hundredth, a half
      rounded away from zero. */
  function Hundredths(seconds: int): (r: int)
    ensures seconds >= 0 ==> r >= 0 && 36 * r - 18 <= seconds < 36 * r + 18
    ensures seconds < 0 ==> r <= 0 && 36 * r - 18 < seconds <= 36 * r + 18
  {
    if seconds >= 0 then (seconds + 18) / 36 else -((-seconds + 18) / 36)
  }

  /** `calculate_cycle_hours`: the rounded hours from start to end, 0.0 when either
      timestamp does not parse. */
  function CycleHours(parse: string -> Option<int>, inAt: string, outAt: string): real {
    match (parse(inAt), parse(outAt))
    case (Some(start), Some(end)) => Hundredths(end - start) as real / 100.0
    case _ => 0.0
  }

  /** A cycle has positive hours exactly when both ends parse and the end is at least half a
      hundredth of an hour (18 seconds) after the start; a failed parse gives 0.0. */
  lemma CycleHoursPositive(parse: string -> Option<int>, inAt: string, outAt: string)
    ensures CycleHours(parse, inAt, outAt) > 0.0 <==>
              parse(inAt).Some? && parse(outAt).Some? && parse(outAt).value - parse(inAt).value >= 18
    ensures parse(inAt).None? || parse(outAt).None? ==> CycleHours(parse, inAt, outAt) == 0.0
  {
    if parse(inAt).Some? && parse(outAt).Some? {
      var d := parse(outAt).value - parse(inAt).value;
      var r := Hundredths(d);
      assert r > 0 <==> d >= 18;
    }
  }

  function Hours(parse: string -> Option<int>, c: CycleRow): real {
    CycleHours(parse, c.inProgressAt, c.outOfProgressAt)
  }

  function Email(c: CycleRow): string { c.assigneeEmail }

  /** The `?email=` filter: when the argument is non-empty, the cycles with exactly that
      email, in order; otherwise all cycles. */
  function ForEmail(cycles: seq<CycleRow>, email: Option<string>): seq<CycleRow> {
    if Truthy(email) then Bucket(cycles, Email, email.value) else cycles
  }

  lemma ForEmailExact(cycles: seq<CycleRow>, email: Option<string>, c: CycleRow)
    ensures c in ForEmail(cycles, email) <==> c in cycles && (Truthy(email) ==> c.assigneeEmail == email.value)
  {
    if Truthy(email) {
      InBucket(cycles, Email, email.value, c);
    }
  }

  /** What one cycle adds to a sample: its hours when they are positive. */
  function HourSample(parse: string -> Option<int>): CycleRow -> seq<real> {
    (c: CycleRow) => if Hours(parse, c) > 0.0 then [Hours(parse, c)] else []
  }

  /** The positive hours of the cycles, in cycle order. */
  function PositiveHours(parse: string -> Option<int>, cs: seq<CycleRow>): seq<real> {
    FlatMap(cs, HourSample(parse))
  }

  /** The accumulation loop of `get_jira_stats`. */
  method CollectHours(parse: string -> Option<int>, cycles: seq<CycleRow>) returns (times: seq<real>)
    ensures times == PositiveHours(parse, cycles)
  {
    times := [];
    for i := 0 to |cycles|
      invariant times == PositiveHours(parse, cycles[..i])
    {
      var hours := CycleHours(parse, cycles[i].inProgressAt, cycles[i].outOfProgressAt);
      FlatMapPrefixSnoc(cycles, i, HourSample(parse));
      if hours > 0.0 {
        times := times + [hours];
      }
    }
    assert cycles[..|cycles|] == cycles;
  }

  /** Only positive hours enter a sample, each of them the hours of one of the cycles, and the
      sample is empty exactly when no cycle has positive hours. */
  lemma PositiveHoursExact(parse: string -> Option<int>, cs: seq<CycleRow>)
    ensures forall h :: h in PositiveHours(parse, cs) ==> h > 0.0 && exists c :: c in cs && Hours(parse, c) == h
    ensures PositiveHours(parse, cs) == [] <==> forall c :: c in cs ==> Hours(parse, c) <= 0.0
  {
    var f := HourSample(parse);
    forall h | h in PositiveHours(parse, cs) ensures h > 0.0 && exists c :: c in cs && Hours(parse, c) == h {
      FlatMapExact(cs, f, h);
    }
    forall c | c in cs && Hours(parse, c) > 0.0 ensures PositiveHours(parse, cs) != [] {
      FlatMapExact(cs, f, Hours(parse, c));
    }
    if PositiveHours(parse, cs) != [] {
      assert PositiveHours(parse, cs)[0] in PositiveHours(parse, cs);
    }
  }

  /** A statistics object: count, mean, median, min and max (before rounding). */
  datatype CycleStats = CycleStats(totalCycles: nat, meanHours: real, medianHours: real,
                                   minHours: real, maxHours: real)

  function StatsOf(times: seq<real>): CycleStats
    requires times != []
  {
    CycleStats(|times|, Mean(times), Median(times), Min(times), Max(times))
  }

  /** The statistics of a sample, all zero for an empty one. */
  function StatsOrZero(times: seq<real>): CycleStats {
    if times == [] then CycleStats(0, 0.0, 0.0, 0.0, 0.0) else StatsOf(times)
  }

  /** The figures of a non-empty sample of positive hours are ordered: 0 < min <= median
      <= max and min <= mean <= max. */
  lemma StatsOrdered(times: seq<real>)
    requires times != []
    requires forall i :: 0 <= i < |times| ==> times[i] > 0.0
    ensures var s := StatsOf(times);
            s.totalCycles == |times| && 0.0 < s.minHours
            && s.minHours <= s.medianHours <= s.maxHours && s.minHours <= s.meanHours <= s.maxHours
  {
    MeanBetweenMinAndMax(times);
    MedianBetweenMinAndMax(times);
  }

  /** `get_jira_stats`. */
  method GetJiraStats(parse: string -> Option<int>, cycles: seq<CycleRow>, email: Option<string>)
    returns (stats: CycleStats)
    ensures stats == StatsOrZero(PositiveHours(parse, ForEmail(cycles, email)))
  {
    var filtered := ForEmail(cycles, email);
    var times := CollectHours(parse, filtered);
    if |times| == 0 {
      return CycleStats(0, 0.0, 0.0, 0.0, 0.0);
    }
    stats := StatsOf(times);
  }

  /** The overall statistics count the cycles with positive hours; they are all zero when
      there are none, and ordered otherwise. */
  lemma JiraStatsProperties(parse: string -> Option<int>, cycles: seq<CycleRow>, email: Option<string>)
    ensures var times := PositiveHours(parse, ForEmail(cycles, email));
            var s := StatsOrZero(times);
            s.totalCycles == |times|
            && (s.totalCycles == 0 <==>
                  forall c :: c in cycles && (Truthy(email) ==> c.assigneeEmail == email.value)
                              ==> Hours(parse, c) <= 0.0)
            && (s.totalCycles == 0 ==> s == CycleStats(0, 0.0, 0.0, 0.0, 0.0))
            && (s.totalCycles > 0 ==>
                  0.0 < s.minHours && s.minHours <= s.medianHours <= s.maxHours
                  && s.minHours <= s.meanHours <= s.maxHours)
  {
    var filtered := ForEmail(cycles, email);
    var times := PositiveHours(parse, filtered);
    PositiveHoursExact(parse, filtered);
    forall c ensures c in filtered <==> c in cycles && (Truthy(email) ==> c.assigneeEmail == email.value) {
      ForEmailExact(cycles, email, c);
    }
    if times != [] {
      assert forall i :: 0 <= i < |times| ==> times[i] in times;
      StatsOrdered(times);
    }
  }

  /** The group of a cycle in `get_jira_stats_by_user`: its email, or "unassigned" when
      that is empty. */
  function UserKey(c: CycleRow): string {
    if c.assigneeEmail != "" then c.assigneeEmail else "unassigned"
  }

  function UserTimes(parse: string -> Option<int>, cs: seq<CycleRow>, u: string): seq<real> {
    PositiveHours(parse, Bucket(cs, UserKey, u))
  }

  /** One cycle read by the grouping loop of `get_jira_stats_by_user`. */
  lemma UserGroupStep(parse: string -> Option<int>, cycles: seq<CycleRow>, i: nat, byUser: map<string, seq<real>>)
    requires i < |cycles|
    requires Grouped(cycles[..i], UserKey, HourSample(parse), byUser)
    ensures var c := cycles[i];
            var u := UserKey(c);
            var times := if u in byUser then byUser[u] else [];
            Grouped(cycles[..i + 1], UserKey, HourSample(parse),
                    byUser[u := if Hours(parse, c) > 0.0 then times + [Hours(parse, c)] else times])
  {
    var c := cycles[i];
    var u := UserKey(c);
    var times := if u in byUser then byUser[u] else [];
    PrefixSnoc(cycles, i);
    GroupedSnoc(cycles[..i], c, UserKey, HourSample(parse), byUser);
    if Hours(parse, c) <= 0.0 {
      assert times + HourSample(parse)(c) == times;
    }
  }

  /** The grouping loop of `get_jira_stats_by_user`: every group seen gets an entry, even one
      whose cycles all have non-positive hours. */
  method GroupByUser(parse: string -> Option<int>, cycles: seq<CycleRow>) returns (byUser: map<string, seq<real>>)
    ensures Grouped(cycles, UserKey, HourSample(parse), byUser)
  {
    byUser := map[];
    for i := 0 to |cycles|
      invariant Grouped(cycles[..i], UserKey, HourSample(parse), byUser)
    {
      var c := cycles[i];
      var email := if c.assigneeEmail != "" then c.assigneeEmail else "unassigned";
      UserGroupStep(parse, cycles, i, byUser);
      var times := if email in byUser then byUser[email] else [];
      var hours := CycleHours(parse, c.inProgressAt, c.outOfProgressAt);
      if hours > 0.0 {
        times := times + [hours];
      }
      byUser := byUser[email := times];
    }
    assert cycles[..|cycles|] == cycles;
  }

  /** `get_jira_stats_by_user`: one entry per group with at least one positive cycle. */
  method GetJiraStatsByUser(parse: string -> Option<int>, cycles: seq<CycleRow>)
    returns (results: map<string, CycleStats>)
    ensures forall u :: u in results <==> u in KeysOf(cycles, UserKey) && UserTimes(parse, cycles, u) != []
    ensures forall u :: u in results ==> UserTimes(parse, cycles, u) != []
                                         && results[u] == StatsOf(UserTimes(parse, cycles, u))
  {
    var byUser := GroupByUser(parse, cycles);
    var pending := byUser.Keys;
    results := map[];
    while pending != {}
      invariant pending <= byUser.Keys
      invariant forall u :: u in results <==> u in byUser && u !in pending && byUser[u] != []
      invariant forall u :: u in results ==> byUser[u] != [] && results[u] == StatsOf(byUser[u])
      decreases |pending|
    {
      var u :| u in pending;
      pending := pending - {u};
      if byUser[u] != [] {
        results := results[u := StatsOf(byUser[u])];
      }
    }
  }

  /** A group is reported exactly when one of its cycles has positive hours, and then its
      figures are ordered; a cycle without an email counts under "unassigned". */
  lemma ByUserReported(parse: string -> Option<int>, cycles: seq<CycleRow>, u: string)
    ensures (u in KeysOf(cycles, UserKey) && UserTimes(parse, cycles, u) != [])
            <==> exists c :: c in cycles && UserKey(c) == u && Hours(parse, c) > 0.0
    ensures UserTimes(parse, cycles, u) != [] ==>
              var s := StatsOf(UserTimes(parse, cycles, u));
              0.0 < s.minHours && s.minHours <= s.medianHours <= s.maxHours
              && s.minHours <= s.meanHours <= s.maxHours
    ensures forall c :: c in cycles && c.assigneeEmail == "" ==> UserKey(c) == "unassigned"
  {
    var b := Bucket(cycles, UserKey, u);
    var times := UserTimes(parse, cycles, u);
    PositiveHoursExact(parse, b);
    forall c ensures c in b <==> c in cycles && UserKey(c) == u {
      InBucket(cycles, UserKey, u, c);
    }
    if times != [] {
      assert forall i :: 0 <= i < |times| ==> times[i] in times;
      StatsOrdered(times);
    }
  }

  /** The month a cycle completed in: the first seven characters of its end. */
  function MonthKey(c: CycleRow): string { Take(c.outOfProgressAt, 7) }

  /** The cycles `get_jira_stats_monthly` groups: positive hours and a non-empty end. */
  predicate Counted(parse: string -> Option<int>, c: CycleRow) {
    Hours(parse, c) > 0.0 && c.outOfProgressAt != ""
  }

  function Kept(parse: string -> Option<int>, cs: seq<CycleRow>): seq<CycleRow> {
    if cs == [] then []
    else Kept(parse, cs[..|cs| - 1]) + (if Counted(parse, cs[|cs| - 1]) then [cs[|cs| - 1]] else [])
  }

  lemma KeptSnoc(parse: string -> Option<int>, cs: seq<CycleRow>, i: nat)
    requires i < |cs|
    ensures Kept(parse, cs[..i + 1]) == Kept(parse, cs[..i]) + (if Counted(parse, cs[i]) then [cs[i]] else [])
  {
    assert cs[..i + 1][..i] == cs[..i];
  }

  /** The kept cycles are exactly those with positive hours and a non-empty end. */
  lemma {:induction false} KeptExact(parse: string -> Option<int>, cs: seq<CycleRow>, c: CycleRow)
    ensures c in Kept(parse, cs) <==> c in cs && Counted(parse, c)
  {
    if cs != [] {
      KeptExact(parse, cs[..|cs| - 1], c);
      SplitLast(cs);
    }
  }

  /** What a kept cycle adds to its month: its hours. */
  function HourOf(parse: string -> Option<int>): CycleRow -> seq<real> {
    (c: CycleRow) => [Hours(parse, c)]
  }

  function MonthTimes(parse: string -> Option<int>, kept: seq<CycleRow>, m: string): seq<real> {
    FlatMap(Bucket(kept, MonthKey, m), HourOf(parse))
  }

  /** The months with a counted cycle, ascending. */
  function Months(parse: string -> Option<int>, cs: seq<CycleRow>): seq<string> {
    SortStrings(FirstSeenKeys(Kept(parse, cs), MonthKey))
  }

  datatype MonthStats = MonthStats(month: string, stats: CycleStats)

  /** The hours of each month of the kept cycles. */
  function Samples(parse: string -> Option<int>, kept: seq<CycleRow>): map<string, seq<real>> {
    map m | m in KeysOf(kept, MonthKey) :: MonthTimes(parse, kept, m)
  }

  /** The entry of one month: its statistics, none for a month without hours. */
  function MonthEntry(samples: map<string, seq<real>>): string -> seq<MonthStats> {
    m => if m in samples && samples[m] != [] then [MonthStats(m, StatsOf(samples[m]))] else []
  }

  /** The entries of the given months, skipping a month without hours. */
  function MonthEntries(samples: map<string, seq<real>>, months: seq<string>): seq<MonthStats> {
    FlatMap(months, MonthEntry(samples))
  }

  function MonthlyStats(parse: string -> Option<int>, cycles: seq<CycleRow>, email: Option<string>): seq<MonthStats> {
    var filtered := ForEmail(cycles, email);
    MonthEntries(Samples(parse, Kept(parse, filtered)), Months(parse, filtered))
  }

  /** The grouping loop of `get_jira_stats_monthly`: the hours of the kept cycles by month,
      and the months in order of first appearance. */
  method GroupByMonth(parse: string -> Option<int>, cycles: seq<CycleRow>)
    returns (byMonth: map<string, seq<real>>, order: seq<string>)
    ensures Grouped(Kept(parse, cycles), MonthKey, HourOf(parse), byMonth)
    ensures order == FirstSeenKeys(Kept(parse, cycles), MonthKey)
  {
    byMonth, order := map[], [];
    for i := 0 to |cycles|
      invariant Grouped(Kept(parse, cycles[..i]), MonthKey, HourOf(parse), byMonth)
      invariant order == FirstSeenKeys(Kept(parse, cycles[..i]), MonthKey)
    {
      var c := cycles[i];
      ghost var kept := Kept(parse, cycles[..i]);
      KeptSnoc(parse, cycles, i);
      var hours := CycleHours(parse, c.inProgressAt, c.outOfProgressAt);
      if hours <= 0.0 {
        assert kept + [] == kept;
        continue;
      }
      var timestamp := c.outOfProgressAt;
      if timestamp != "" {
        var month := Take(timestamp, 7);
        GroupedSnoc(kept, c, MonthKey, HourOf(parse), byMonth);
        FirstSeenKeysSnoc(kept, c, MonthKey);
        var times := if month in byMonth then byMonth[month] else [];
        if month !in byMonth {
          order := order + [month];
        }
        byMonth := byMonth[month := times + [hours]];
      } else {
        assert kept + [] == kept;
      }
    }
    assert cycles[..|cycles|] == cycles;
  }

  /** `get_jira_stats_monthly`: the months in ascending order, each with the statistics of
      its hours. */
  method GetJiraStatsMonthly(parse: string -> Option<int>, cycles: seq<CycleRow>, email: Option<string>)
    returns (results: seq<MonthStats>)
    ensures results == MonthlyStats(parse, cycles, email)
  {
    var filtered := ForEmail(cycles, email);
    var byMonth, order := GroupByMonth(parse, filtered);
    var months := SortStrings(order);
    MonthsAreKeys(parse, Kept(parse, filtered), order, months);
    GroupedIsSamples(parse, Kept(parse, filtered), byMonth);
    results := EntriesInOrder(byMonth, months);
  }

  lemma GroupedIsSamples(parse: string -> Option<int>, kept: seq<CycleRow>, byMonth: map<string, seq<real>>)
    requires Grouped(kept, MonthKey, HourOf(parse), byMonth)
    ensures byMonth == Samples(parse, kept)
  {
  }

  /** The loop over `sorted(by_month.items())`. */
  method EntriesInOrder(byMonth: map<string, seq<real>>, months: seq<string>) returns (results: seq<MonthStats>)
    requires forall i :: 0 <= i < |months| ==> months[i] in byMonth
    ensures results == MonthEntries(byMonth, months)
  {
    results := [];
    for j := 0 to |months|
      invariant results == MonthEntries(byMonth, months[..j])
    {
      var month := months[j];
      var times := byMonth[month];
      FlatMapPrefixSnoc(months, j, MonthEntry(byMonth));
      if times != [] {
        results := results + [MonthStats(month, StatsOf(times))];
      }
    }
    assert months[..|months|] == months;
  }

  lemma MonthsAreKeys(parse: string -> Option<int>, kept: seq<CycleRow>, order: seq<string>, months: seq<string>)
    requires order == FirstSeenKeys(kept, MonthKey) && months == SortStrings(order)
    ensures forall i :: 0 <= i < |months| ==> months[i] in KeysOf(kept, MonthKey)
    ensures forall i :: 0 <= i < |months| ==> months[i] in Samples(parse, kept)
  {
    SortByElems(order, Identity);
    DistinctElems(KeyList(kept, MonthKey));
    KeyListElems(kept, MonthKey);
    assert forall i :: 0 <= i < |months| ==> months[i] in months;
  }

  /** When every listed month has hours, no month is skipped. */
  lemma MonthEntriesComplete(samples: map<string, seq<real>>, months: seq<string>)
    requires forall i :: 0 <= i < |months| ==> months[i] in samples && samples[months[i]] != []
    ensures |MonthEntries(samples, months)| == |months|
    ensures forall i :: 0 <= i < |months| ==>
              MonthEntries(samples, months)[i] == MonthStats(months[i], StatsOf(samples[months[i]]))
  {
    var f := MonthEntry(samples);
    FlatMapSingletons(months, f);
    forall i | 0 <= i < |months| ensures f(months[i])[0] == MonthStats(months[i], StatsOf(samples[months[i]])) {
    }
  }

  lemma MonthTimesNonEmpty(parse: string -> Option<int>, kept: seq<CycleRow>, m: string)
    requires m in KeysOf(kept, MonthKey)
    ensures MonthTimes(parse, kept, m) != []
  {
    BucketNonEmptyIffKey(kept, MonthKey, m);
  }

  /** The hours of a month of kept cycles are all positive. */
  lemma MonthTimesPositive(parse: string -> Option<int>, cs: seq<CycleRow>, m: string)
    ensures forall h :: h in MonthTimes(parse, Kept(parse, cs), m) ==> h > 0.0
  {
    var kept := Kept(parse, cs);
    forall h | h in MonthTimes(parse, kept, m) ensures h > 0.0 {
      FlatMapExact(Bucket(kept, MonthKey, m), HourOf(parse), h);
      var c :| c in Bucket(kept, MonthKey, m) && h in HourOf(parse)(c);
      InBucket(kept, MonthKey, m, c);
      KeptExact(parse, cs, c);
    }
  }

  /** A month is listed exactly when a counted cycle completed in it, in strictly ascending
      order. */
  lemma MonthsExact(parse: string -> Option<int>, cs: seq<CycleRow>)
    ensures StrictlySorted(Months(parse, cs))
    ensures Elems(Months(parse, cs)) == KeysOf(Kept(parse, cs), MonthKey)
  {
    var kept := Kept(parse, cs);
    var ks := KeyList(kept, MonthKey);
    DistinctElems(ks);
    KeyListElems(kept, MonthKey);
    SortStringsStrict(Distinct(ks));
  }

  /** The months of `get_jira_stats_monthly` are strictly ascending, and a month appears
      exactly when a counted cycle of the filtered ones completed in it. */
  lemma MonthlyMonths(parse: string -> Option<int>, cycles: seq<CycleRow>, email: Option<string>)
    ensures var months := Months(parse, ForEmail(cycles, email));
            && StrictlySorted(months)
            && (forall m :: m in months <==>
                  exists c :: c in cycles && (Truthy(email) ==> c.assigneeEmail == email.value)
                              && Counted(parse, c) && MonthKey(c) == m)
  {
    var filtered := ForEmail(cycles, email);
    var kept := Kept(parse, filtered);
    var months := Months(parse, filtered);
    MonthsExact(parse, filtered);
    forall m ensures m in months <==>
                       exists c :: c in cycles && (Truthy(email) ==> c.assigneeEmail == email.value)
                                   && Counted(parse, c) && MonthKey(c) == m {
      assert m in months <==> m in KeysOf(kept, MonthKey);
      forall c ensures c in kept <==> c in cycles && (Truthy(email) ==> c.assigneeEmail == email.value)
                                      && Counted(parse, c) {
        KeptExact(parse, filtered, c);
        ForEmailExact(cycles, email, c);
      }
    }
  }

  /** The figures of a month with a counted cycle are ordered. */
  lemma MonthStatsOrdered(parse: string -> Option<int>, cs: seq<CycleRow>, m: string)
    requires m in KeysOf(Kept(parse, cs), MonthKey)
    ensures MonthTimes(parse, Kept(parse, cs), m) != []
    ensures var s := StatsOf(MonthTimes(parse, Kept(parse, cs), m));
            0.0 < s.minHours && s.minHours <= s.medianHours <= s.maxHours
            && s.minHours <= s.meanHours <= s.maxHours
  {
    var times := MonthTimes(parse, Kept(parse, cs), m);
    MonthTimesNonEmpty(parse, Kept(parse, cs), m);
    MonthTimesPositive(parse, cs, m);
    assert forall k :: 0 <= k < |times| ==> times[k] in times;
    StatsOrdered(times);
  }

  /** Each month of `get_jira_stats_monthly` has one entry, in order, holding the statistics
      of that month's hours, with at least one cycle and its figures ordered. */
  lemma MonthlyEntries(parse: string -> Option<int>, cycles: seq<CycleRow>, email: Option<string>)
    ensures var kept := Kept(parse, ForEmail(cycles, email));
            var months := Months(parse, ForEmail(cycles, email));
            var r := MonthlyStats(parse, cycles, email);
            && |r| == |months|
            && (forall i :: 0 <= i < |r| ==>
                  r[i].month == months[i] && MonthTimes(parse, kept, months[i]) != []
                  && r[i].stats == StatsOf(MonthTimes(parse, kept, months[i]))
                  && 0.0 < r[i].stats.minHours
                  && r[i].stats.minHours <= r[i].stats.medianHours <= r[i].stats.maxHours
                  && r[i].stats.minHours <= r[i].stats.meanHours <= r[i].stats.maxHours)
  {
    var filtered := ForEmail(cycles, email);
    var kept := Kept(parse, filtered);
    var months := Months(parse, filtered);
    var samples := Samples(parse, kept);
    MonthsExact(parse, filtered);
    assert forall i :: 0 <= i < |months| ==> months[i] in months;
    forall i | 0 <= i < |months|
      ensures months[i] in samples && samples[months[i]] != []
      ensures var s := StatsOf(samples[months[i]]);
              0.0 < s.minHours && s.minHours <= s.medianHours <= s.maxHours
              && s.minHours <= s.meanHours <= s.maxHours
    {
      MonthStatsOrdered(parse, filtered, months[i]);
    }
    MonthEntriesComplete(samples, months);
  }
}

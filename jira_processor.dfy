/** `extract_in_progress_cycles` and `process_issues_to_csv`: an issue's status transitions,
    sorted by timestamp, are scanned by a two-state machine (no start open / start open).
    Entering "In Progress" opens (or re-opens) a start; any other target status closes an
    open start into a cycle. */
module JiraProcessor {
  import opened Base
  import opened Sorting
  import opened JiraFetcher

  /** One row of the cycles file: issue key, assignee email, start and end timestamps. */
  datatype Cycle = Cycle(key: Option<string>, assigneeEmail: Option<string>,
                         inProgressAt: string, outOfProgressAt: string)

  function Timestamp(t: Transition): string { t.timestamp }

  predicate EntersProgress(t: Transition) {
    t.toStatus == Some("In Progress")
  }

  /** The email of the issue's assignee, None when it has none. */
  function EmailOf(issue: Issue): Option<string> {
    if issue.assignee.Some? then issue.assignee.value.email else None
  }

  /** The transition at j closes a cycle: the one just before it entered "In Progress"
      with a non-empty timestamp, and this one goes anywhere else. */
  predicate ClosesAt(ts: seq<Transition>, j: nat)
    requires j < |ts|
  {
    0 < j && EntersProgress(ts[j - 1]) && ts[j - 1].timestamp != "" && !EntersProgress(ts[j])
  }

  /** Reference definition of the cycles, without the state machine: one cycle for each
      closing position, from the timestamp just before it to its own. */
  function CyclesOf(key: Option<string>, email: Option<string>, ts: seq<Transition>): seq<Cycle> {
    if ts == [] then []
    else
      var j := |ts| - 1;
      CyclesOf(key, email, ts[..j])
      + (if ClosesAt(ts, j) then [Cycle(key, email, ts[j - 1].timestamp, ts[j].timestamp)] else [])
  }

  function IssueCycles(issue: Issue): seq<Cycle> {
    CyclesOf(issue.key, EmailOf(issue), SortBy(issue.transitions, Timestamp))
  }

  lemma CyclesSnoc(key: Option<string>, email: Option<string>, ts: seq<Transition>, i: nat)
    requires i < |ts|
    ensures CyclesOf(key, email, ts[..i + 1])
            == CyclesOf(key, email, ts[..i])
               + (if ClosesAt(ts, i) then [Cycle(key, email, ts[i - 1].timestamp, ts[i].timestamp)] else [])
  {
    assert ts[..i + 1][..i] == ts[..i];
  }

  /** `extract_in_progress_cycles`: the scan over the sorted transitions produces exactly
      the reference cycles. The loop invariant says what the open start is: present and
      non-empty exactly when the last transition read entered "In Progress" with a non-empty
      timestamp, and then equal to that timestamp, so the latest entry wins. */
  method ExtractInProgressCycles(issue: Issue) returns (cycles: seq<Cycle>)
    ensures cycles == IssueCycles(issue)
    ensures issue.transitions == [] ==> cycles == []
  {
    var transitions := issue.transitions;
    if |transitions| == 0 {
      return [];
    }
    var sorted := SortBy(transitions, Timestamp);
    var email := if issue.assignee.Some? then issue.assignee.value.email else None;
    cycles := [];
    var start: Option<string> := None;
    for i := 0 to |sorted|
      invariant cycles == CyclesOf(issue.key, email, sorted[..i])
      invariant Truthy(start) <==> 0 < i && EntersProgress(sorted[i - 1]) && sorted[i - 1].timestamp != ""
      invariant Truthy(start) ==> start == Some(sorted[i - 1].timestamp)
    {
      var t := sorted[i];
      CyclesSnoc(issue.key, email, sorted, i);
      if t.toStatus == Some("In Progress") {
        start := Some(t.timestamp);
      } else if Truthy(start) && t.toStatus != Some("In Progress") {
        cycles := cycles + [Cycle(issue.key, email, start.value, t.timestamp)];
        start := None;
      }
    }
    assert sorted[..|sorted|] == sorted;
  }

  /** Every cycle carries the issue key and the assignee email. */
  lemma {:induction false} CyclesCarryIssue(key: Option<string>, email: Option<string>, ts: seq<Transition>)
    ensures forall c :: c in CyclesOf(key, email, ts) ==> c.key == key && c.assigneeEmail == email
  {
    if ts != [] {
      CyclesCarryIssue(key, email, ts[..|ts| - 1]);
    }
  }

  /** The cycles are exactly the closing positions: a cycle ends at a transition that does
      not enter "In Progress" and starts at the one immediately before it, which did. */
  lemma {:induction false} CyclesExact(key: Option<string>, email: Option<string>, ts: seq<Transition>, c: Cycle)
    ensures c in CyclesOf(key, email, ts) <==>
              exists j :: 0 <= j < |ts| && ClosesAt(ts, j)
                          && c == Cycle(key, email, ts[j - 1].timestamp, ts[j].timestamp)
  {
    if ts != [] {
      var init := ts[..|ts| - 1];
      CyclesExact(key, email, init, c);
      forall j | 0 <= j < |init|
        ensures ClosesAt(init, j) == ClosesAt(ts, j)
      {
      }
    }
  }

  /** The number of transitions that enter "In Progress". */
  function Entries(ts: seq<Transition>): nat {
    if ts == [] then 0
    else Entries(ts[..|ts| - 1]) + (if EntersProgress(ts[|ts| - 1]) then 1 else 0)
  }

  /** A start still open at the end has produced no cycle yet: the cycles plus an open final
      entry never outnumber the entries. */
  lemma {:induction false} CyclesAtMostEntries(key: Option<string>, email: Option<string>, ts: seq<Transition>)
    ensures |CyclesOf(key, email, ts)| + (if ts != [] && EntersProgress(ts[|ts| - 1]) then 1 else 0)
            <= Entries(ts)
  {
    if ts != [] {
      var init := ts[..|ts| - 1];
      CyclesAtMostEntries(key, email, init);
      if |ts| >= 2 {
        assert init[|init| - 1] == ts[|ts| - 2];
      }
    }
  }

  /** A final transition that enters "In Progress" adds no cycle. */
  lemma OpenStartAddsNoCycle(key: Option<string>, email: Option<string>, ts: seq<Transition>, t: Transition)
    requires EntersProgress(t)
    ensures CyclesOf(key, email, ts + [t]) == CyclesOf(key, email, ts)
  {
    assert (ts + [t])[..|ts|] == ts;
  }

  /** Over transitions sorted by timestamp, each cycle starts no later than it ends. */
  lemma {:induction false} CyclesOrdered(key: Option<string>, email: Option<string>, ts: seq<Transition>)
    requires SortedBy(ts, Timestamp)
    ensures forall c :: c in CyclesOf(key, email, ts) ==> StrLe(c.inProgressAt, c.outOfProgressAt)
  {
    if ts != [] {
      var init := ts[..|ts| - 1];
      assert SortedBy(init, Timestamp);
      CyclesOrdered(key, email, init);
      if ClosesAt(ts, |ts| - 1) {
        assert Timestamp(ts[|ts| - 2]) == ts[|ts| - 2].timestamp;
      }
    }
  }

  /** The cycles of an issue: key and email carried, start no later than end, and no more of
      them than entries into "In Progress". */
  lemma IssueCyclesProperties(issue: Issue)
    ensures forall c :: c in IssueCycles(issue) ==>
              c.key == issue.key && c.assigneeEmail == EmailOf(issue)
              && StrLe(c.inProgressAt, c.outOfProgressAt)
    ensures |IssueCycles(issue)| <= Entries(SortBy(issue.transitions, Timestamp))
  {
    var sorted := SortBy(issue.transitions, Timestamp);
    SortBySorted(issue.transitions, Timestamp);
    CyclesCarryIssue(issue.key, EmailOf(issue), sorted);
    CyclesOrdered(issue.key, EmailOf(issue), sorted);
    CyclesAtMostEntries(issue.key, EmailOf(issue), sorted);
  }

  /** The issues of all projects, in project order and then issue order. */
  function IssuesOf(projects: seq<seq<Issue>>): seq<Issue> {
    if projects == [] then []
    else IssuesOf(projects[..|projects| - 1]) + projects[|projects| - 1]
  }

  /** Cycles of all projects, in project order and then issue order. */
  function AllCycles(projects: seq<seq<Issue>>): seq<Cycle> {
    FlatMap(IssuesOf(projects), IssueCycles)
  }

  /** The collection loop of `process_issues_to_csv`: every issue's cycles, extended in
      project order and then issue order. */
  method ProcessIssues(projects: seq<seq<Issue>>) returns (allCycles: seq<Cycle>)
    ensures allCycles == AllCycles(projects)
  {
    allCycles := [];
    for p := 0 to |projects|
      invariant allCycles == FlatMap(IssuesOf(projects[..p]), IssueCycles)
    {
      var cycles := ProjectCycles(projects[p]);
      IssuesOfSnoc(projects, p);
      FlatMapAppend(IssuesOf(projects[..p]), projects[p], IssueCycles);
      allCycles := allCycles + cycles;
    }
    assert projects[..|projects|] == projects;
  }

  /** The inner loop: the cycles of one project's issues, in issue order. */
  method ProjectCycles(issues: seq<Issue>) returns (cycles: seq<Cycle>)
    ensures cycles == FlatMap(issues, IssueCycles)
  {
    cycles := [];
    for k := 0 to |issues|
      invariant cycles == FlatMap(issues[..k], IssueCycles)
    {
      var issueCycles := ExtractInProgressCycles(issues[k]);
      FlatMapPrefixSnoc(issues, k, IssueCycles);
      cycles := cycles + issueCycles;
    }
    assert issues[..|issues|] == issues;
  }

  lemma IssuesOfSnoc(projects: seq<seq<Issue>>, p: nat)
    requires p < |projects|
    ensures IssuesOf(projects[..p + 1]) == IssuesOf(projects[..p]) + projects[p]
  {
    assert projects[..p + 1][..p] == projects[..p];
  }

  lemma {:induction false} IssuesOfExact(projects: seq<seq<Issue>>, issue: Issue)
    ensures issue in IssuesOf(projects) <==> exists issues :: issues in projects && issue in issues
  {
    if projects != [] {
      IssuesOfExact(projects[..|projects| - 1], issue);
      SplitLast(projects);
    }
  }

  /** The output holds exactly the cycles of the issues of the projects. */
  lemma AllCyclesExact(projects: seq<seq<Issue>>, c: Cycle)
    ensures c in AllCycles(projects) <==>
              exists issues, issue :: issues in projects && issue in issues && c in IssueCycles(issue)
  {
    FlatMapExact(IssuesOf(projects), IssueCycles, c);
    forall issue | issue in IssuesOf(projects) || exists issues :: issues in projects && issue in issues
      ensures issue in IssuesOf(projects) <==> exists issues :: issues in projects && issue in issues
    {
      IssuesOfExact(projects, issue);
    }
  }

  /** Order: the cycles of two runs of projects are those of the first followed by those of
      the second. */
  lemma AllCyclesAppend(a: seq<seq<Issue>>, b: seq<seq<Issue>>)
    ensures AllCycles(a + b) == AllCycles(a) + AllCycles(b)
  {
    IssuesOfAppend(a, b);
    FlatMapAppend(IssuesOf(a), IssuesOf(b), IssueCycles);
  }

  lemma {:induction false} IssuesOfAppend(a: seq<seq<Issue>>, b: seq<seq<Issue>>)
    ensures IssuesOf(a + b) == IssuesOf(a) + IssuesOf(b)
  {
    if b == [] {
      assert a + b == a;
    } else {
      IssuesOfAppend(a, b[..|b| - 1]);
      assert (a + b)[..|a + b| - 1] == a + b[..|b| - 1];
      assert (a + b)[|a + b| - 1] == b[|b| - 1];
    }
  }
}

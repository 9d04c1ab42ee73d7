/** `JiraFetcher._transform_issue`: a raw issue of the search API becomes the simplified
    record kept in the cache. The assignee is reduced to three fields, and the changelog is
    filtered down to its status changes, each stamped with the time of its history entry.
    Missing JSON keys are None. */
module JiraFetcher {
  import opened Base

  /** One item of a changelog history entry. */
  datatype ChangeItem = ChangeItem(field: Option<string>, fromString: Option<string>, toString: Option<string>)

  /** One changelog history entry: when it was made and what it changed. */
  datatype History = History(created: string, items: seq<ChangeItem>)

  datatype RawAssignee = RawAssignee(accountId: Option<string>, displayName: Option<string>,
                                     emailAddress: Option<string>)

  /** The parts of a raw issue the transformation reads. `assignee` is None when it is
      missing, null or an empty object. */
  datatype RawIssue = RawIssue(
    key: Option<string>,
    summary: Option<string>,
    issueType: Option<string>,
    status: Option<string>,
    assignee: Option<RawAssignee>,
    created: Option<string>,
    updated: Option<string>,
    histories: seq<History>)

  /** One status change. */
  datatype Transition = Transition(timestamp: string, fromStatus: Option<string>, toStatus: Option<string>)

  datatype Assignee = Assignee(accountId: Option<string>, displayName: Option<string>, email: Option<string>)

  /** The simplified issue; every record has this one set of fields. */
  datatype Issue = Issue(
    key: Option<string>,
    summary: Option<string>,
    issueType: Option<string>,
    status: Option<string>,
    assignee: Option<Assignee>,
    created: Option<string>,
    updated: Option<string>,
    transitions: seq<Transition>)

  predicate IsStatusItem(item: ChangeItem) {
    item.field == Some("status")
  }

  function ItemTransition(created: string, item: ChangeItem): Transition {
    Transition(created, item.fromString, item.toString)
  }

  /** The status changes of some items of one history entry, in item order. */
  function ItemTransitions(created: string, items: seq<ChangeItem>): seq<Transition> {
    if items == [] then []
    else
      var last := items[|items| - 1];
      ItemTransitions(created, items[..|items| - 1])
      + (if IsStatusItem(last) then [ItemTransition(created, last)] else [])
  }

  /** The status changes of a changelog, in history order and then item order. */
  function StatusTransitions(histories: seq<History>): seq<Transition> {
    if histories == [] then []
    else
      var last := histories[|histories| - 1];
      StatusTransitions(histories[..|histories| - 1]) + ItemTransitions(last.created, last.items)
  }

  function AssigneeOf(raw: Option<RawAssignee>): Option<Assignee> {
    match raw
    case None => None
    case Some(a) => Some(Assignee(a.accountId, a.displayName, a.emailAddress))
  }

  /** The record the transformation builds from a raw issue and its status changes. */
  function IssueOf(raw: RawIssue, transitions: seq<Transition>): Issue {
    Issue(raw.key, raw.summary, raw.issueType, raw.status, AssigneeOf(raw.assignee), raw.created,
          raw.updated, transitions)
  }

  /** `_transform_issue`: the nested loops over histories and items append every status
      item as a transition. */
  method TransformIssue(raw: RawIssue) returns (issue: Issue)
    ensures issue == IssueOf(raw, StatusTransitions(raw.histories))
  {
    var transitions: seq<Transition> := [];
    var histories := raw.histories;
    for i := 0 to |histories|
      invariant transitions == StatusTransitions(histories[..i])
    {
      var created := histories[i].created;
      var items := histories[i].items;
      ghost var before := transitions;
      for j := 0 to |items|
        invariant transitions == before + ItemTransitions(created, items[..j])
      {
        ItemTransitionsSnoc(created, items, j);
        if items[j].field == Some("status") {
          transitions := transitions + [Transition(created, items[j].fromString, items[j].toString)];
        } else {
          assert ItemTransitions(created, items[..j + 1]) == ItemTransitions(created, items[..j]) + [];
        }
      }
      assert items[..|items|] == items;
      assert histories[..i + 1][..i] == histories[..i];
    }
    assert histories[..|histories|] == histories;
    issue := IssueOf(raw, transitions);
  }

  lemma ItemTransitionsSnoc(created: string, items: seq<ChangeItem>, j: nat)
    requires j < |items|
    ensures ItemTransitions(created, items[..j + 1])
            == ItemTransitions(created, items[..j])
               + (if IsStatusItem(items[j]) then [ItemTransition(created, items[j])] else [])
  {
    assert items[..j + 1][..j] == items[..j];
  }

  /** The transitions of a history entry are exactly its status items, stamped with its
      time. */
  lemma {:induction false} ItemTransitionsExact(created: string, items: seq<ChangeItem>, t: Transition)
    ensures t in ItemTransitions(created, items) <==>
              exists item :: item in items && IsStatusItem(item) && t == ItemTransition(created, item)
  {
    if items != [] {
      var init, last := items[..|items| - 1], items[|items| - 1];
      ItemTransitionsExact(created, init, t);
      SplitLast(items);
    }
  }

  /** The transitions of a changelog are exactly its status items, each stamped with the
      time of its own history entry. */
  lemma {:induction false} StatusTransitionsExact(histories: seq<History>, t: Transition)
    ensures t in StatusTransitions(histories) <==>
              exists h, item :: h in histories && item in h.items && IsStatusItem(item)
                                && t == ItemTransition(h.created, item)
  {
    if histories != [] {
      var init, last := histories[..|histories| - 1], histories[|histories| - 1];
      StatusTransitionsExact(init, t);
      ItemTransitionsExact(last.created, last.items, t);
      SplitLast(histories);
    }
  }

  /** Order: the transitions of two runs of histories are those of the first run followed by
      those of the second, and within an entry those of its items in order. */
  lemma {:induction false} StatusTransitionsAppend(a: seq<History>, b: seq<History>)
    ensures StatusTransitions(a + b) == StatusTransitions(a) + StatusTransitions(b)
  {
    if b == [] {
      assert a + b == a;
    } else {
      var init := b[..|b| - 1];
      StatusTransitionsAppend(a, init);
      assert (a + b)[..|a + b| - 1] == a + init;
      assert (a + b)[|a + b| - 1] == b[|b| - 1];
    }
  }

  lemma {:induction false} ItemTransitionsAppend(created: string, a: seq<ChangeItem>, b: seq<ChangeItem>)
    ensures ItemTransitions(created, a + b) == ItemTransitions(created, a) + ItemTransitions(created, b)
  {
    if b == [] {
      assert a + b == a;
    } else {
      var init := b[..|b| - 1];
      ItemTransitionsAppend(created, a, init);
      assert (a + b)[..|a + b| - 1] == a + init;
      assert (a + b)[|a + b| - 1] == b[|b| - 1];
    }
  }

  /** The assignee is None exactly when the raw issue has none; otherwise its email is the
      raw `emailAddress`. The key is copied. */
  lemma TransformedFields(raw: RawIssue, transitions: seq<Transition>)
    ensures IssueOf(raw, transitions).assignee.None? <==> raw.assignee.None?
    ensures raw.assignee.Some? ==>
              IssueOf(raw, transitions).assignee.value
              == Assignee(raw.assignee.value.accountId, raw.assignee.value.displayName,
                          raw.assignee.value.emailAddress)
    ensures IssueOf(raw, transitions).key == raw.key
    ensures IssueOf(raw, transitions).transitions == transitions
  {
  }
}

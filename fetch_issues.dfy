/**
  fetch-issues.js: `issuesGroupedByStatus(filterStatus)`. The search query is
  built from the optional status filter; every issue the search returns goes
  through the shared classifier over the keys of `STATUS_LIST`, the filter and
  the closed-unknown skip, and its record is pushed onto the list of its
  status, the list being created on first use (`??=`). The result is a plain
  object: its keys in the order they were first created, each with its list of
  records in encounter order, unsorted.
 */
module FetchIssues {
  import opened Wrappers
  import opened Strings
  import opened StatusRegistry
  import opened Issues

  /** The fixed part of the search query, up to and including its trailing blank. */
  const SearchPrefix: string := "repo:aws/aws-cdk-rfcs is:issue "

  /**
    The search query: the fixed part, then `label:` and the comma-joined
    filter when one is given. An empty filter array is truthy in JavaScript,
    so it still yields `label:`.
   */
  function Query(filter: Option<seq<string>>): (q: string)
    ensures StartsWith(q, SearchPrefix)
    ensures filter.None? <==> q == SearchPrefix
  {
    SearchPrefix + (if filter.Some? then "label:" + Join(filter.value, ',') else "")
  }

  /** The labels of a non-empty filter read back from the query when none holds a comma. */
  lemma QueryLabels(filter: seq<string>)
    requires |filter| >= 1
    requires forall i :: 0 <= i < |filter| ==> ',' !in filter[i]
    ensures var q := Query(Some(filter));
      |q| >= |SearchPrefix| + 6 && q[|SearchPrefix|..|SearchPrefix| + 6] == "label:" &&
      Split(q[|SearchPrefix| + 6..], ',') == filter
  {
    var q := Query(Some(filter));
    assert q[|SearchPrefix| + 6..] == Join(filter, ',');
    SplitJoin(filter, ',');
  }

  /** An empty filter array is truthy, so the query still ends in an empty `label:` part. */
  lemma EmptyFilterQuery()
    ensures Query(Some([])) == SearchPrefix + "label:"
  {
  }

  /**
    The object `issuesGroupedByStatus` resolves to: `order` lists its keys in
    creation order, `lists` maps each key to its records.
   */
  datatype Grouping = Grouping(order: seq<string>, lists: map<string, seq<Record>>)

  /** `(issueByStatus[status] ??= []).push(rec)` */
  function Pushed(g: Grouping, rec: Record): Grouping {
    if rec.status in g.lists then Grouping(g.order, g.lists[rec.status := g.lists[rec.status] + [rec]])
    else Grouping(g.order + [rec.status], g.lists[rec.status := [rec]])
  }

  /** The grouping after pushing every record of `recs` in order onto an empty object. */
  function GroupByEncounter(recs: seq<Record>): Grouping {
    if recs == [] then Grouping([], map[])
    else Pushed(GroupByEncounter(recs[..|recs| - 1]), recs[|recs| - 1])
  }

  /** The statuses of a sequence of records, in order. */
  function StatusesOf(recs: seq<Record>): (ss: seq<string>)
    ensures |ss| == |recs|
    ensures forall i :: 0 <= i < |recs| ==> ss[i] == recs[i].status
  {
    seq(|recs|, i requires 0 <= i < |recs| => recs[i].status)
  }

  lemma {:induction false} StatusesSnoc(recs: seq<Record>, v: Record)
    ensures StatusesOf(recs + [v]) == StatusesOf(recs) + [v.status]
  {
  }

  /**
    The object's keys are exactly the statuses of the records, each created
    once, and the list under a key holds the records of that status in
    encounter order.
   */
  lemma {:induction false} GroupByEncounterSpec(recs: seq<Record>)
    ensures var g := GroupByEncounter(recs);
      (forall s :: s in g.lists <==> s in g.order) &&
      (forall s :: s in g.order <==> s in StatusesOf(recs)) &&
      Distinct(g.order) &&
      (forall s :: s in g.lists ==> g.lists[s] == InGroup(recs, s))
  {
    if recs != [] {
      var init := recs[..|recs| - 1];
      var last := recs[|recs| - 1];
      assert recs == init + [last];
      GroupByEncounterSpec(init);
      if last.status in GroupByEncounter(init).lists {
        PushedKnownStatus(init, last);
      } else {
        PushedNewStatus(init, last);
      }
    }
  }

  /** The step of `GroupByEncounterSpec` when the record's status already has a list. */
  lemma PushedKnownStatus(init: seq<Record>, last: Record)
    requires var g0 := GroupByEncounter(init);
      (forall s :: s in g0.lists <==> s in g0.order) &&
      (forall s :: s in g0.order <==> s in StatusesOf(init)) &&
      Distinct(g0.order) &&
      (forall s :: s in g0.lists ==> g0.lists[s] == InGroup(init, s))
    requires last.status in GroupByEncounter(init).lists
    ensures var g := GroupByEncounter(init + [last]);
      (forall s :: s in g.lists <==> s in g.order) &&
      (forall s :: s in g.order <==> s in StatusesOf(init + [last])) &&
      Distinct(g.order) &&
      (forall s :: s in g.lists ==> g.lists[s] == InGroup(init + [last], s))
  {
    var recs := init + [last];
    assert recs[..|recs| - 1] == init;
    StatusesSnoc(init, last);
    InGroupSnoc(init, last);
  }

  /** The step of `GroupByEncounterSpec` when the record's status is met for the first time. */
  lemma PushedNewStatus(init: seq<Record>, last: Record)
    requires var g0 := GroupByEncounter(init);
      (forall s :: s in g0.lists <==> s in g0.order) &&
      (forall s :: s in g0.order <==> s in StatusesOf(init)) &&
      Distinct(g0.order) &&
      (forall s :: s in g0.lists ==> g0.lists[s] == InGroup(init, s))
    requires last.status !in GroupByEncounter(init).lists
    ensures var g := GroupByEncounter(init + [last]);
      (forall s :: s in g.lists <==> s in g.order) &&
      (forall s :: s in g.order <==> s in StatusesOf(init + [last])) &&
      Distinct(g.order) &&
      (forall s :: s in g.lists ==> g.lists[s] == InGroup(init + [last], s))
  {
    var recs := init + [last];
    assert recs[..|recs| - 1] == init;
    StatusesSnoc(init, last);
    InGroupSnoc(init, last);
    var g0 := GroupByEncounter(init);
    var g := GroupByEncounter(recs);
    assert g == Pushed(g0, last);
    DistinctSnoc(g0.order, last.status);
    forall s | s in g.lists ensures g.lists[s] == InGroup(recs, s) {
      if s == last.status {
        assert s !in StatusesOf(init);
        InGroupAbsent(init, s);
      }
    }
  }

  /** A status no record carries has an empty list. */
  lemma {:induction false} InGroupAbsent(recs: seq<Record>, s: string)
    requires s !in StatusesOf(recs)
    ensures InGroup(recs, s) == []
  {
    if recs != [] {
      var init := recs[..|recs| - 1];
      assert StatusesOf(recs) == StatusesOf(init) + [recs[|recs| - 1].status];
      InGroupAbsent(init, s);
    }
  }

  /** A key exists only if at least one record landed in its list. */
  lemma {:induction false} ListsAreNonEmpty(recs: seq<Record>, s: string)
    requires s in GroupByEncounter(recs).lists
    ensures GroupByEncounter(recs).lists[s] != []
  {
    GroupByEncounterSpec(recs);
    var i :| 0 <= i < |recs| && StatusesOf(recs)[i] == s;
    InGroupIsFilter(recs, s);
    assert recs[i] in multiset(recs);
  }

  /** The keys are created in the order their statuses are first met. */
  lemma {:induction false} KeysInEncounterOrder(recs: seq<Record>, i: nat, j: nat)
    requires i < j < |GroupByEncounter(recs).order|
    ensures GroupByEncounter(recs).order[i] in StatusesOf(recs)
    ensures GroupByEncounter(recs).order[j] in StatusesOf(recs)
    ensures FirstIndexOf(StatusesOf(recs), GroupByEncounter(recs).order[i]).value <
            FirstIndexOf(StatusesOf(recs), GroupByEncounter(recs).order[j]).value
  {
    var init := recs[..|recs| - 1];
    var last := recs[|recs| - 1];
    assert recs == init + [last];
    var g0 := GroupByEncounter(init);
    var g := GroupByEncounter(recs);
    var ss := StatusesOf(recs);
    var ss0 := StatusesOf(init);
    GroupByEncounterSpec(init);
    GroupByEncounterSpec(recs);
    StatusesSnoc(init, last);
    assert g.order[i] in g.order && g.order[j] in g.order;
    if last.status in g0.lists || j < |g0.order| {
      assert g.order[i] == g0.order[i] && g.order[j] == g0.order[j];
      if last.status !in g0.lists {
        assert j < |g0.order|;
      }
      KeysInEncounterOrder(init, i, j);
      assert g0.order[i] in g0.order && g0.order[j] in g0.order;
      FirstIndexOfExtend(ss0, last.status, g0.order[i]);
      FirstIndexOfExtend(ss0, last.status, g0.order[j]);
    } else {
      assert g.order[j] == last.status && g.order[i] == g0.order[i];
      assert g0.order[i] in g0.order;
      FirstIndexOfExtend(ss0, last.status, g0.order[i]);
      FirstIndexOfAppended(ss0, last.status);
    }
  }

  /**
    What `issuesGroupedByStatus(filter)` resolves to for the issues the search
    returned, or the error it rejects with: the records of the kept issues,
    classified over `keys`, grouped by first encounter.
   */
  function GroupedByStatus(keys: seq<string>, filter: Option<seq<string>>, issues: seq<Issue>, files: seq<string>)
    : Result<Grouping, MetadataError>
  {
    match RecordsOf(keys, Kept(keys, filter, issues), files)
    case Failure(e) => Failure(e)
    case Success(recs) => Success(GroupByEncounter(recs))
  }

  /** One iteration of the loop over the search results. */
  function Step(keys: seq<string>, filter: Option<seq<string>>, g: Grouping, issue: Issue, files: seq<string>)
    : Result<Grouping, MetadataError>
  {
    if !Keep(keys, filter, issue) then Success(g)
    else
      match ToRecord(issue, StatusOf(keys, issue.labelNames), files)
      case Failure(e) => Failure(e)
      case Success(rec) => Success(Pushed(g, rec))
  }

  /** The body of the loop over the search results in `issuesGroupedByStatus`. */
  method PushOne(keys: seq<string>, filter: Option<seq<string>>, order: seq<string>,
                 issueByStatus: map<string, seq<Record>>, issue: Issue, files: seq<string>)
    returns (r: Result<Grouping, MetadataError>)
    ensures r == Step(keys, filter, Grouping(order, issueByStatus), issue, files)
  {
    if issue.isPullRequest {
      return Success(Grouping(order, issueByStatus));
    }
    var status := DetermineStatus(keys, issue.labelNames);
    if filter.Some? && status !in filter.value {
      return Success(Grouping(order, issueByStatus));
    }
    if issue.closed && status == UnknownStatus {
      return Success(Grouping(order, issueByStatus));
    }
    var rec := ToRecord(issue, status, files);
    if rec.Failure? {
      return Failure(rec.error);
    }
    var newOrder := order;
    var lists := issueByStatus;
    if status !in lists {
      newOrder := newOrder + [status];
      lists := lists[status := []];
    }
    lists := lists[status := lists[status] + [rec.value]];
    if status !in issueByStatus {
      assert [] + [rec.value] == [rec.value];
      assert lists == issueByStatus[status := [rec.value]];
    }
    r := Success(Grouping(newOrder, lists));
  }

  /** One step keeps the object equal to the grouping of the records built so far. */
  lemma {:induction false} StepPreserves(keys: seq<string>, filter: Option<seq<string>>, issues: seq<Issue>, i: nat,
                      files: seq<string>, g: Grouping)
    requires i < |issues|
    requires RecordsOf(keys, Kept(keys, filter, issues[..i]), files).Success?
    requires g == GroupByEncounter(RecordsOf(keys, Kept(keys, filter, issues[..i]), files).value)
    ensures Step(keys, filter, g, issues[i], files).Failure? ==>
      RecordsOf(keys, Kept(keys, filter, issues), files) == Failure(Step(keys, filter, g, issues[i], files).error)
    ensures Step(keys, filter, g, issues[i], files).Success? ==>
      RecordsOf(keys, Kept(keys, filter, issues[..i + 1]), files).Success? &&
      Step(keys, filter, g, issues[i], files).value ==
        GroupByEncounter(RecordsOf(keys, Kept(keys, filter, issues[..i + 1]), files).value)
  {
    var issue := issues[i];
    var kept := Kept(keys, filter, issues[..i]);
    var recs := RecordsOf(keys, kept, files).value;
    KeptStep(keys, filter, issues, i);
    if Keep(keys, filter, issue) {
      RecordsOfSnoc(keys, kept, issue, files);
      var rec := ToRecord(issue, StatusOf(keys, issue.labelNames), files);
      if rec.Failure? {
        KeptRest(keys, filter, issues, i);
        RecordsOfFailureSticks(keys, kept + [issue], Kept(keys, filter, issues[i + 1..]), files);
      } else {
        assert (recs + [rec.value])[..|recs|] == recs;
      }
    }
  }

  /**
    `issuesGroupedByStatus(filterStatus)` applied to the issues the search for
    `Query(filter)` returned and the listing of the design-document folder.
   */
  method IssuesGroupedByStatus(issues: seq<Issue>, files: seq<string>, filter: Option<seq<string>>)
    returns (r: Result<Grouping, MetadataError>)
    ensures r == GroupedByStatus(Keys(StatusList), filter, issues, files)
  {
    var labels := Keys(StatusList);
    var order: seq<string> := [];
    var issueByStatus: map<string, seq<Record>> := map[];
    var i := 0;
    while i < |issues|
      invariant 0 <= i <= |issues|
      invariant RecordsOf(labels, Kept(labels, filter, issues[..i]), files).Success?
      invariant Grouping(order, issueByStatus) ==
        GroupByEncounter(RecordsOf(labels, Kept(labels, filter, issues[..i]), files).value)
    {
      var step := PushOne(labels, filter, order, issueByStatus, issues[i], files);
      StepPreserves(labels, filter, issues, i, files, Grouping(order, issueByStatus));
      if step.Failure? {
        return Failure(step.error);
      }
      order := step.value.order;
      issueByStatus := step.value.lists;
      i := i + 1;
    }
    assert issues[..i] == issues;
    r := Success(Grouping(order, issueByStatus));
  }

  /**
    Every record in the result sits under its own status, comes from an issue
    of the input that is not a pull request, passes the filter and is not
    closed with unknown status, and carries that issue's number.
   */
  lemma {:induction false} ResultRecordsAreSelected(keys: seq<string>, filter: Option<seq<string>>, issues: seq<Issue>,
                                 files: seq<string>, s: string, k: nat)
    requires GroupedByStatus(keys, filter, issues, files).Success?
    requires s in GroupedByStatus(keys, filter, issues, files).value.lists
    requires k < |GroupedByStatus(keys, filter, issues, files).value.lists[s]|
    ensures var rec := GroupedByStatus(keys, filter, issues, files).value.lists[s][k];
      rec.status == s &&
      (filter.Some? ==> s in filter.value) &&
      exists issue :: issue in issues && issue.number == rec.number && !issue.isPullRequest &&
        StatusOf(keys, issue.labelNames) == s &&
        !(issue.closed && s == UnknownStatus)
  {
    var kept := Kept(keys, filter, issues);
    var recs := RecordsOf(keys, kept, files).value;
    var g := GroupByEncounter(recs);
    GroupByEncounterSpec(recs);
    var rec := g.lists[s][k];
    assert rec in multiset(InGroup(recs, s)) by {
      assert rec == InGroup(recs, s)[k];
    }
    InGroupIsFilter(recs, s);
    var m :| 0 <= m < |recs| && recs[m] == rec;
    RecordsOfSpec(keys, kept, files);
    var issue := kept[m];
    assert issue in kept;
    KeptMember(keys, filter, issues, issue);
    RecordOfIssue(issue, StatusOf(keys, issue.labelNames), files);
  }

  /** An empty filter array keeps nothing: the object is empty. */
  lemma {:induction false} EmptyFilterKeepsNothing(keys: seq<string>, issues: seq<Issue>, files: seq<string>)
    ensures Kept(keys, Some([]), issues) == []
    ensures GroupedByStatus(keys, Some([]), issues, files) == Success(Grouping([], map[]))
  {
    if issues != [] {
      EmptyFilterKeepsNothing(keys, issues[..|issues| - 1], files);
    }
  }

  /** Without a filter the script keeps the issues render-rfc-table.js keeps, with the same statuses. */
  lemma SameClassifierAsTable(labelNames: seq<string>)
    ensures StatusOf(Keys(StatusList), labelNames) == StatusOf(Keys(Display), labelNames)
    ensures StatusOf(Keys(StatusList), labelNames) in Keys(StatusList)
  {
    RegistriesAgreeOnKeys();
    UnknownIsRegistered();
    StatusOfIsKey(Keys(StatusList), labelNames);
  }
}

/**
  render-rfc-table.js: turns the repository's issues into the lines of the
  Markdown table. Pull requests and closed issues of unknown status are
  skipped; every other issue becomes a record that is pushed onto the list of
  its status; the lists are walked in registry order, each sorted by issue
  number, one `|`-joined row per record, after a header and a separator line.
 */
module RenderRfcTable {
  import opened Wrappers
  import opened Strings
  import opened StatusRegistry
  import opened Issues

  const Header: string := "\\#|Title|Owner|Status"
  const Separator: string := "---|-----|-----|------"

  // ---------------------------------------------------------------------------
  // renderUser

  /** The handle `renderUser` keeps: one leading `@` removed, then trimmed. */
  function Handle(user: string): string {
    Trim(if StartsWith(user, "@") then user[1..] else user)
  }

  /** `renderUser(user)`: an empty cell, or a link to the user's GitHub page. */
  function RenderUser(user: Option<string>): string {
    if user.None? || user.value == "" then ""
    else
      var h := Handle(user.value);
      if h == "" then "" else "[@" + h + "](https://github.com/" + h + ")"
  }

  /**
    The cell is empty exactly when there is no handle left after removing one
    `@` and trimming; otherwise it links that handle.
   */
  lemma RenderUserCases(user: Option<string>)
    ensures RenderUser(user) == "" <==> user.None? || Handle(user.value) == ""
    ensures RenderUser(user) != "" ==>
      var h := Handle(user.value);
      RenderUser(user) == "[@" + h + "](https://github.com/" + h + ")" &&
      !IsJsSpace(h[0]) && !IsJsSpace(h[|h| - 1])
  {
    if user.Some? && user.value == "" {
      assert Handle(user.value) == Trim("");
    }
    if user.Some? {
      TrimHasNoOuterSpace(if StartsWith(user.value, "@") then user.value[1..] else user.value);
    }
  }

  /** One leading `@` is ignored: `@alice` renders as `alice` does. */
  lemma RenderUserStripsOneAt(u: string)
    requires !StartsWith(u, "@")
    ensures RenderUser(Some("@" + u)) == RenderUser(Some(u))
  {
    assert ("@" + u)[1..] == u;
    assert StartsWith("@" + u, "@");
    if u == "" {
      assert Handle("@" + u) == Trim("");
    }
  }

  /** Only one `@` is removed: `@@alice` keeps the second one. */
  lemma HandleKeepsSecondAt(u: string)
    requires !StartsWith(u, "@")
    ensures (u == [] || !IsJsSpace(u[0])) ==> Handle("@@" + u) == "@" + Handle(u)
  {
    assert ("@@" + u)[1..] == "@" + u;
    if u == [] {
      assert "@" + u == "@";
      assert TrimStart("@") == "@" && TrimEnd("@") == "@";
    } else if !IsJsSpace(u[0]) {
      assert TrimStart("@" + u) == "@" + u;
      assert TrimStart(u) == u;
      TrimEndKeepsFirst(u);
      TrimEndPrefix("@", u);
    }
  }

  lemma {:induction false} TrimEndPrefix(p: string, u: string)
    requires TrimEnd(u) != []
    ensures TrimEnd(p + u) == p + TrimEnd(u)
  {
    if u != [] && IsJsSpace(u[|u| - 1]) {
      TrimEndPrefix(p, u[..|u| - 1]);
      assert (p + u)[..|p + u| - 1] == p + u[..|u| - 1];
    }
  }

  // ---------------------------------------------------------------------------
  // byNumber and `issues.sort(byNumber)`

  /** `byNumber(a, b)`: negative, zero or positive as `a` sorts before, with or after `b`. */
  function ByNumber(a: Record, b: Record): int {
    a.number - b.number
  }

  predicate SortedByNumber(s: seq<Record>) {
    forall i, j :: 0 <= i < j < |s| ==> ByNumber(s[i], s[j]) <= 0
  }

  /** Inserts `x` before the first element that does not sort before it. */
  function InsertByNumber(x: Record, s: seq<Record>): (r: seq<Record>)
    ensures multiset(r) == multiset(s) + multiset{x}
  {
    if s == [] then [x]
    else if ByNumber(x, s[0]) <= 0 then [x] + s
    else
      assert s == [s[0]] + s[1..];
      [s[0]] + InsertByNumber(x, s[1..])
  }

  /** A bound below `x` and below every element stays below every element after inserting `x`. */
  lemma {:induction false} InsertLowerBound(x: Record, s: seq<Record>, b: int)
    requires b <= x.number
    requires forall k :: 0 <= k < |s| ==> b <= s[k].number
    ensures forall k :: 0 <= k < |InsertByNumber(x, s)| ==> b <= InsertByNumber(x, s)[k].number
  {
    if s != [] && ByNumber(x, s[0]) > 0 {
      InsertLowerBound(x, s[1..], b);
    }
  }

  lemma {:induction false} InsertKeepsSorted(x: Record, s: seq<Record>)
    requires SortedByNumber(s)
    ensures SortedByNumber(InsertByNumber(x, s))
  {
    if s != [] && ByNumber(x, s[0]) > 0 {
      var tail := s[1..];
      InsertKeepsSorted(x, tail);
      var rest := InsertByNumber(x, tail);
      InsertLowerBound(x, tail, s[0].number);
      var r := [s[0]] + rest;
      assert r == InsertByNumber(x, s);
      forall i, j | 0 <= i < j < |r| ensures ByNumber(r[i], r[j]) <= 0 {
        assert r[j] == rest[j - 1];
        if i > 0 {
          assert r[i] == rest[i - 1];
        }
      }
    }
  }

  /** `issues.sort(byNumber)`: a permutation of the group in ascending number order. */
  function SortByNumber(s: seq<Record>): (r: seq<Record>)
    ensures multiset(r) == multiset(s)
    ensures SortedByNumber(r)
  {
    if s == [] then []
    else
      assert s == [s[0]] + s[1..];
      var sorted := SortByNumber(s[1..]);
      InsertKeepsSorted(s[0], sorted);
      InsertByNumber(s[0], sorted)
  }

  // ---------------------------------------------------------------------------
  // Which issues are kept and how their records are grouped

  lemma GroupMembers(recs: seq<Record>, status: string)
    ensures forall i :: 0 <= i < |SortByNumber(InGroup(recs, status))| ==>
              SortByNumber(InGroup(recs, status))[i].status == status
  {
    var g := SortByNumber(InGroup(recs, status));
    forall i | 0 <= i < |g| ensures g[i].status == status {
      assert g[i] in multiset(g);
    }
  }

  /** The records in the order the table lists them: status by status, each status sorted. */
  function Grouped(recs: seq<Record>, statuses: seq<string>): (g: seq<Record>)
    ensures forall i :: 0 <= i < |g| ==> g[i].status in statuses
  {
    if statuses == [] then []
    else
      var init := statuses[..|statuses| - 1];
      var last := statuses[|statuses| - 1];
      GroupMembers(recs, last);
      Grouped(recs, init) + SortByNumber(InGroup(recs, last))
  }

  lemma {:induction false} GroupedSnoc(recs: seq<Record>, statuses: seq<string>, s: string)
    ensures Grouped(recs, statuses + [s]) == Grouped(recs, statuses) + SortByNumber(InGroup(recs, s))
  {
    assert (statuses + [s])[..|statuses|] == statuses;
  }

  /** The position of a status in the registry order. */
  function KeyPos(statuses: seq<string>, status: string): (p: nat)
    requires status in statuses
    ensures p < |statuses| && statuses[p] == status
  {
    FirstIndexOf(statuses, status).value
  }

  /** Ordered by registry position, and by number within one status. */
  predicate OrderedByStatusThenNumber(g: seq<Record>, statuses: seq<string>) {
    (forall i :: 0 <= i < |g| ==> g[i].status in statuses) &&
    forall i, j :: 0 <= i < j < |g| ==>
      KeyPos(statuses, g[i].status) < KeyPos(statuses, g[j].status) ||
      (g[i].status == g[j].status && g[i].number <= g[j].number)
  }

  /** Every record whose status is listed appears once per occurrence, and no other record appears. */
  lemma {:induction false} GroupedIsPermutation(recs: seq<Record>, statuses: seq<string>)
    requires Distinct(statuses)
    ensures forall x :: multiset(Grouped(recs, statuses))[x] ==
                          if x.status in statuses then multiset(recs)[x] else 0
  {
    if statuses != [] {
      var init := statuses[..|statuses| - 1];
      var last := statuses[|statuses| - 1];
      assert statuses == init + [last];
      GroupedIsPermutation(recs, init);
      InGroupIsFilter(recs, last);
      forall x: Record ensures multiset(Grouped(recs, statuses))[x] ==
                         if x.status in statuses then multiset(recs)[x] else 0 {
        if x.status == last {
          assert x.status !in init;
        }
      }
    }
  }

  /** Appending a status to the order leaves the positions of the earlier ones alone. */
  lemma KeyPosExtend(init: seq<string>, last: string, s: string)
    requires s in init
    ensures KeyPos(init + [last], s) == KeyPos(init, s)
  {
    var p := KeyPos(init, s);
    var q := KeyPos(init + [last], s);
    assert (init + [last])[p] == s;
  }

  /** A new status appended to the order sits at the end. */
  lemma KeyPosLast(init: seq<string>, last: string)
    requires last !in init
    ensures KeyPos(init + [last], last) == |init|
  {
    assert (init + [last])[..|init|] == init;
  }

  /** An order that holds for a list of statuses holds for a longer list. */
  lemma OrderedWiden(g: seq<Record>, init: seq<string>, last: string)
    requires OrderedByStatusThenNumber(g, init)
    ensures OrderedByStatusThenNumber(g, init + [last])
  {
    var statuses := init + [last];
    forall i | 0 <= i < |g| ensures KeyPos(statuses, g[i].status) == KeyPos(init, g[i].status) {
      KeyPosExtend(init, last, g[i].status);
    }
  }

  /** A sorted run of one later status extends an ordered table. */
  lemma OrderedAppendGroup(a: seq<Record>, b: seq<Record>, statuses: seq<string>, s: string)
    requires OrderedByStatusThenNumber(a, statuses)
    requires s in statuses
    requires forall i :: 0 <= i < |a| ==> KeyPos(statuses, a[i].status) < KeyPos(statuses, s)
    requires forall i :: 0 <= i < |b| ==> b[i].status == s
    requires SortedByNumber(b)
    ensures OrderedByStatusThenNumber(a + b, statuses)
  {
    var g := a + b;
    forall i, j | 0 <= i < j < |g|
      ensures KeyPos(statuses, g[i].status) < KeyPos(statuses, g[j].status) ||
              (g[i].status == g[j].status && g[i].number <= g[j].number)
    {
      if j < |a| {
        assert g[i] == a[i] && g[j] == a[j];
      } else if i >= |a| {
        assert g[i] == b[i - |a|] && g[j] == b[j - |a|];
      } else {
        assert g[i] == a[i] && g[j] == b[j - |a|];
      }
    }
  }

  /** The table order: registry order of statuses, ascending numbers within a status. */
  lemma {:induction false} GroupedIsOrdered(recs: seq<Record>, statuses: seq<string>)
    requires Distinct(statuses)
    ensures OrderedByStatusThenNumber(Grouped(recs, statuses), statuses)
  {
    if statuses != [] {
      var n := |statuses|;
      var init := statuses[..n - 1];
      var last := statuses[n - 1];
      assert statuses == init + [last];
      assert Distinct(init);
      GroupedIsOrdered(recs, init);
      var a := Grouped(recs, init);
      var b := SortByNumber(InGroup(recs, last));
      GroupMembers(recs, last);
      OrderedWiden(a, init, last);
      KeyPosLast(init, last);
      forall i | 0 <= i < |a| ensures KeyPos(statuses, a[i].status) < KeyPos(statuses, last) {
        KeyPosExtend(init, last, a[i].status);
      }
      OrderedAppendGroup(a, b, statuses, last);
    }
  }

  // ---------------------------------------------------------------------------
  // Rows

  /** The four cells of a row: issue link, title linked to the resolved link, owner, status text. */
  function RowCells(reg: Registry, r: Record): seq<string>
  {
    [ "[" + NatToString(r.number) + "](" + IssueUrlPrefix + NatToString(r.number) + ")",
      "[" + Trim(r.title) + "](" + r.link + ")",
      RenderUser(r.assignee),
      DisplayOf(reg, r.status) ]
  }

  /** `cols.join('|')` */
  function FormatRow(reg: Registry, r: Record): string
  {
    Join(RowCells(reg, r), '|')
  }

  /**
    A row reads back as its four cells when none of them holds a `|`; the
    second is the trimmed title linked to the record's link, the last the
    registry's text for the record's status.
   */
  lemma RowHasFourColumns(reg: Registry, r: Record)
    requires r.status in Keys(reg)
    requires forall c :: c in RowCells(reg, r) ==> '|' !in c
    ensures |Split(FormatRow(reg, r), '|')| == 4
    ensures Split(FormatRow(reg, r), '|')[1] == "[" + Trim(r.title) + "](" + r.link + ")"
    ensures (r.status, Split(FormatRow(reg, r), '|')[3]) in reg
  {
    var cells := RowCells(reg, r);
    assert forall j :: 0 <= j < |cells| ==> cells[j] in cells;
    SplitJoin(cells, '|');
  }

  /** The row lines of a sequence of records, in order. */
  function Rows(reg: Registry, g: seq<Record>): (rows: seq<string>)
    ensures |rows| == |g|
    ensures forall i :: 0 <= i < |g| ==> rows[i] == FormatRow(reg, g[i])
  {
    if g == [] then []
    else Rows(reg, g[..|g| - 1]) + [FormatRow(reg, g[|g| - 1])]
  }

  lemma {:induction false} RowsSnoc(reg: Registry, g: seq<Record>, x: Record)
    ensures Rows(reg, g + [x]) == Rows(reg, g) + [FormatRow(reg, x)]
  {
    assert (g + [x])[..|g|] == g;
  }

  /** One more row emitted by the inner loop of `render()`. */
  lemma {:induction false} RowsStep(reg: Registry, before: seq<string>, g: seq<Record>, t: nat)
    requires t < |g|
    ensures before + Rows(reg, g[..t]) + [FormatRow(reg, g[t])] == before + Rows(reg, g[..t + 1])
  {
    TakeSnoc(g, t);
    RowsSnoc(reg, g[..t], g[t]);
    AppendParts(before, Rows(reg, g[..t]), [FormatRow(reg, g[t])], Rows(reg, g[..t + 1]));
  }

  /** One more status list emitted by the outer loop of `render()`. */
  lemma {:induction false} RowsGroupStep(reg: Registry, recs: seq<Record>, labels: seq<string>, j: nat, group: seq<Record>)
    requires j < |labels|
    requires group == SortByNumber(InGroup(recs, labels[j]))
    ensures [Header, Separator] + Rows(reg, Grouped(recs, labels[..j])) + Rows(reg, group) ==
            [Header, Separator] + Rows(reg, Grouped(recs, labels[..j + 1]))
  {
    var a := Grouped(recs, labels[..j]);
    GroupedStep(recs, labels, j);
    RowsAppend(reg, a, group);
    AppendParts([Header, Separator], Rows(reg, a), Rows(reg, group), Rows(reg, a + group));
  }

  /** The records of one more status in the order. */
  lemma {:induction false} GroupedStep(recs: seq<Record>, labels: seq<string>, j: nat)
    requires j < |labels|
    ensures Grouped(recs, labels[..j + 1]) == Grouped(recs, labels[..j]) + SortByNumber(InGroup(recs, labels[j]))
  {
    TakeSnoc(labels, j);
    GroupedSnoc(recs, labels[..j], labels[j]);
  }

  lemma {:induction false} RowsAppend(reg: Registry, a: seq<Record>, b: seq<Record>)
    ensures Rows(reg, a + b) == Rows(reg, a) + Rows(reg, b)
  {
    if b != [] {
      var init := b[..|b| - 1];
      RowsAppend(reg, a, init);
      assert (a + b)[..|a + b| - 1] == a + init;
    } else {
      assert a + b == a;
    }
  }

  // ---------------------------------------------------------------------------
  // render

  /**
    What `render()` returns over the registry `reg` (the script's own is
    `display`), or the error it rejects with.
   */
  function RenderedTable(reg: Registry, issues: seq<Issue>, files: seq<string>): Result<seq<string>, MetadataError>
  {
    var keys := Keys(reg);
    match RecordsOf(keys, Kept(keys, None, issues), files)
    case Failure(e) => Failure(e)
    case Success(recs) => Success([Header, Separator] + Rows(reg, Grouped(recs, keys)))
  }

  /**
    A successful render is the header, the separator and one row per kept
    issue, and the rows list the kept issues' records status by status in
    registry order, by ascending number within a status.
   */
  lemma {:induction false} RenderOutput(reg: Registry, issues: seq<Issue>, files: seq<string>)
    requires ValidRegistry(reg)
    requires RenderedTable(reg, issues, files).Success?
    ensures RecordsOf(Keys(reg), Kept(Keys(reg), None, issues), files).Success?
    ensures var lines := RenderedTable(reg, issues, files).value;
      var recs := RecordsOf(Keys(reg), Kept(Keys(reg), None, issues), files).value;
      var g := Grouped(recs, Keys(reg));
      |lines| == 2 + |Kept(Keys(reg), None, issues)| &&
      lines[0] == Header && lines[1] == Separator &&
      multiset(g) == multiset(recs) &&
      OrderedByStatusThenNumber(g, Keys(reg)) &&
      lines[2..] == Rows(reg, g)
  {
    var keys := Keys(reg);
    var kept := Kept(keys, None, issues);
    var recs := RecordsOf(keys, kept, files).value;
    RecordsListed(keys, kept, files);
    GroupedKeepsAll(recs, keys);
    GroupedIsOrdered(recs, keys);
    var g := Grouped(recs, keys);
    assert |g| == |multiset(g)| == |multiset(recs)| == |recs|;
  }

  /** With the sentinel among the keys, every record built carries a key as its status. */
  lemma {:induction false} RecordsListed(keys: seq<string>, kept: seq<Issue>, files: seq<string>)
    requires UnknownStatus in keys
    requires RecordsOf(keys, kept, files).Success?
    ensures |RecordsOf(keys, kept, files).value| == |kept|
    ensures forall x :: x in RecordsOf(keys, kept, files).value ==> x.status in keys
  {
    var recs := RecordsOf(keys, kept, files).value;
    RecordsOfSpec(keys, kept, files);
    forall x | x in recs ensures x.status in keys {
      var i :| 0 <= i < |recs| && recs[i] == x;
      StatusOfIsKey(keys, kept[i].labelNames);
      RecordOfIssue(kept[i], StatusOf(keys, kept[i].labelNames), files);
    }
  }

  /** When every status is listed, grouping loses and adds nothing. */
  lemma {:induction false} GroupedKeepsAll(recs: seq<Record>, statuses: seq<string>)
    requires Distinct(statuses)
    requires forall x :: x in recs ==> x.status in statuses
    ensures multiset(Grouped(recs, statuses)) == multiset(recs)
  {
    GroupedIsPermutation(recs, statuses);
    forall x: Record ensures multiset(Grouped(recs, statuses))[x] == multiset(recs)[x] {
      if x.status !in statuses {
        assert x !in recs;
      }
    }
  }

  /**
    Every row belongs to an issue of the input that is neither a pull request
    nor closed with unknown status, and carries that issue's number and status.
   */
  lemma {:induction false} RowsComeFromKeptIssues(reg: Registry, issues: seq<Issue>, files: seq<string>, i: nat)
    requires ValidRegistry(reg)
    requires RecordsOf(Keys(reg), Kept(Keys(reg), None, issues), files).Success?
    requires i < |Grouped(RecordsOf(Keys(reg), Kept(Keys(reg), None, issues), files).value, Keys(reg))|
    ensures var r := Grouped(RecordsOf(Keys(reg), Kept(Keys(reg), None, issues), files).value, Keys(reg))[i];
      exists issue :: issue in issues && Keep(Keys(reg), None, issue) && issue.number == r.number &&
        r.status == StatusOf(Keys(reg), issue.labelNames)
  {
    var keys := Keys(reg);
    var kept := Kept(keys, None, issues);
    var recs := RecordsOf(keys, kept, files).value;
    var g := Grouped(recs, keys);
    RecordsListed(keys, kept, files);
    assert g[i] in recs by {
      GroupedKeepsAll(recs, keys);
      assert g[i] in multiset(g);
    }
    var k :| 0 <= k < |recs| && recs[k] == g[i];
    var issue := kept[k];
    assert ToRecord(issue, StatusOf(keys, issue.labelNames), files) == Success(g[i]) by {
      RecordsOfSpec(keys, kept, files);
    }
    KeptMember(keys, None, issues, issue);
    RecordOfIssue(issue, StatusOf(keys, issue.labelNames), files);
  }

  /** The render rejects exactly when the metadata of some kept issue throws. */
  lemma {:induction false} RenderFails(reg: Registry, issues: seq<Issue>, files: seq<string>)
    ensures RenderedTable(reg, issues, files).Failure? <==>
      exists i :: 0 <= i < |Kept(Keys(reg), None, issues)| && FindMetadata(Kept(Keys(reg), None, issues)[i].body).Failure?
  {
    var keys := Keys(reg);
    var kept := Kept(keys, None, issues);
    RecordsOfSpec(keys, kept, files);
    if RecordsOf(keys, kept, files).Failure? {
      var i :| 0 <= i < |kept| && FindMetadata(kept[i].body).Failure?;
      assert RenderedTable(reg, issues, files).Failure?;
    } else {
      assert RenderedTable(reg, issues, files).Success?;
    }
  }

  /**
    `render()`: one pass over the issues pushing records onto the list of
    their status, then one pass over the status lists in registry order.
   */
  method Render(issues: seq<Issue>, files: seq<string>) returns (r: Result<seq<string>, MetadataError>)
    ensures r == RenderedTable(Display, issues, files)
  {
    DisplayIsValid();
    r := RenderOver(Display, issues, files);
  }

  /** The body of `render()` over a registry with distinct keys that include the sentinel. */
  method RenderOver(reg: Registry, issues: seq<Issue>, files: seq<string>) returns (r: Result<seq<string>, MetadataError>)
    requires ValidRegistry(reg)
    ensures r == RenderedTable(reg, issues, files)
  {
    var labels := Keys(reg);
    var issueByStatus := EmptyGroups(labels);
    var grouped := PushIssues(labels, issueByStatus, issues, files);
    match grouped
    case Failure(e) =>
      r := Failure(e);
    case Success(groups) =>
      ghost var recs := RecordsOf(labels, Kept(labels, None, issues), files).value;
      var lines := EmitRows(reg, groups, recs);
      r := Success(lines);
  }

  /** The lists `issueByStatus[status]` once every record of `recs` has been pushed. */
  function Groups(labels: seq<string>, recs: seq<Record>): (m: map<string, seq<Record>>)
    ensures forall s :: s in m <==> s in labels
  {
    map s | s in labels :: InGroup(recs, s)
  }

  /** Pushing a record onto the list of its status, which is a registry key. */
  lemma {:induction false} GroupsSnoc(labels: seq<string>, recs: seq<Record>, v: Record)
    requires v.status in labels
    ensures Groups(labels, recs + [v]) ==
            Groups(labels, recs)[v.status := Groups(labels, recs)[v.status] + [v]]
  {
    var m := Groups(labels, recs + [v]);
    var n := Groups(labels, recs)[v.status := Groups(labels, recs)[v.status] + [v]];
    forall s | s in m ensures m[s] == n[s] {
      InGroupSnoc(recs, v);
    }
  }

  /** `issueByStatus[status] = []` for every registry key, in registry order. */
  method EmptyGroups(labels: seq<string>) returns (m: map<string, seq<Record>>)
    ensures m == Groups(labels, [])
  {
    m := map[];
    var k := 0;
    while k < |labels|
      invariant 0 <= k <= |labels|
      invariant m == Groups(labels[..k], [])
    {
      TakeSnoc(labels, k);
      m := m[labels[k] := []];
      k := k + 1;
    }
    assert labels[..k] == labels;
  }

  /**
    One iteration of the loop over the issues: a skipped issue leaves the lists
    alone, a kept one has its record pushed onto the list of its status, and a
    metadata error is thrown.
   */
  function Step(labels: seq<string>, m: map<string, seq<Record>>, issue: Issue, files: seq<string>)
    : Result<map<string, seq<Record>>, MetadataError>
    requires UnknownStatus in labels
    requires forall s :: s in labels ==> s in m
  {
    var status := StatusOf(labels, issue.labelNames);
    StatusOfIsKey(labels, issue.labelNames);
    if !Keep(labels, None, issue) then Success(m)
    else
      match ToRecord(issue, status, files)
      case Failure(e) => Failure(e)
      case Success(rec) => Success(m[status := m[status] + [rec]])
  }

  /** The body of the loop over the issues in `render()`. */
  method PushOne(labels: seq<string>, issueByStatus: map<string, seq<Record>>, issue: Issue, files: seq<string>)
    returns (r: Result<map<string, seq<Record>>, MetadataError>)
    requires UnknownStatus in labels
    requires forall s :: s in labels ==> s in issueByStatus
    ensures r == Step(labels, issueByStatus, issue, files)
  {
    if issue.isPullRequest {
      return Success(issueByStatus);
    }
    var status := DetermineStatus(labels, issue.labelNames);
    if issue.closed && status == UnknownStatus {
      return Success(issueByStatus);
    }
    var rec := ToRecord(issue, status, files);
    if rec.Failure? {
      return Failure(rec.error);
    }
    StatusOfIsKey(labels, issue.labelNames);
    r := Success(issueByStatus[status := issueByStatus[status] + [rec.value]]);
  }

  /**
    One step keeps the lists equal to the grouping of the records of the
    issues kept so far, or fails exactly as building all the records does.
   */
  lemma {:induction false} StepPreserves(labels: seq<string>, issues: seq<Issue>, i: nat, files: seq<string>, m: map<string, seq<Record>>)
    requires UnknownStatus in labels && i < |issues|
    requires RecordsOf(labels, Kept(labels, None, issues[..i]), files).Success?
    requires m == Groups(labels, RecordsOf(labels, Kept(labels, None, issues[..i]), files).value)
    ensures Step(labels, m, issues[i], files).Failure? ==>
      RecordsOf(labels, Kept(labels, None, issues), files) == Failure(Step(labels, m, issues[i], files).error)
    ensures Step(labels, m, issues[i], files).Success? ==>
      RecordsOf(labels, Kept(labels, None, issues[..i + 1]), files).Success? &&
      Step(labels, m, issues[i], files).value == Groups(labels, RecordsOf(labels, Kept(labels, None, issues[..i + 1]), files).value)
  {
    var issue := issues[i];
    var kept := Kept(labels, None, issues[..i]);
    var recs := RecordsOf(labels, kept, files).value;
    KeptStep(labels, None, issues, i);
    if Keep(labels, None, issue) {
      var status := StatusOf(labels, issue.labelNames);
      RecordsOfSnoc(labels, kept, issue, files);
      var rec := ToRecord(issue, status, files);
      if rec.Failure? {
        KeptRest(labels, None, issues, i);
        RecordsOfFailureSticks(labels, kept + [issue], Kept(labels, None, issues[i + 1..]), files);
      } else {
        StatusOfIsKey(labels, issue.labelNames);
        assert rec.value.status == status;
        GroupsSnoc(labels, recs, rec.value);
      }
    }
  }

  /**
    The loop over the issues: skips pull requests and closed issues of unknown
    status and pushes every other issue's record onto the list of its status;
    the first metadata error ends the loop.
   */
  method PushIssues(labels: seq<string>, empty: map<string, seq<Record>>, issues: seq<Issue>, files: seq<string>)
    returns (r: Result<map<string, seq<Record>>, MetadataError>)
    requires UnknownStatus in labels
    requires empty == Groups(labels, [])
    ensures r == match RecordsOf(labels, Kept(labels, None, issues), files)
                 case Failure(e) => Failure(e)
                 case Success(recs) => Success(Groups(labels, recs))
  {
    var issueByStatus := empty;
    var i := 0;
    while i < |issues|
      invariant 0 <= i <= |issues|
      invariant RecordsOf(labels, Kept(labels, None, issues[..i]), files).Success?
      invariant issueByStatus == Groups(labels, RecordsOf(labels, Kept(labels, None, issues[..i]), files).value)
    {
      var step := PushOne(labels, issueByStatus, issues[i], files);
      StepPreserves(labels, issues, i, files, issueByStatus);
      if step.Failure? {
        return Failure(step.error);
      }
      issueByStatus := step.value;
      i := i + 1;
    }
    assert issues[..i] == issues;
    r := Success(issueByStatus);
  }

  /**
    The loop over `Object.values(issueByStatus)` in registry order: each list
    sorted by number, one row per record.
   */
  method EmitRows(reg: Registry, groups: map<string, seq<Record>>, ghost recs: seq<Record>) returns (lines: seq<string>)
    requires groups == Groups(Keys(reg), recs)
    ensures lines == [Header, Separator] + Rows(reg, Grouped(recs, Keys(reg)))
  {
    var labels := Keys(reg);
    lines := [Header, Separator];
    var j := 0;
    while j < |labels|
      invariant 0 <= j <= |labels|
      invariant lines == [Header, Separator] + Rows(reg, Grouped(recs, labels[..j]))
    {
      var group := SortByNumber(groups[labels[j]]);
      lines := EmitGroup(reg, lines, group);
      RowsGroupStep(reg, recs, labels, j, group);
      j := j + 1;
    }
    assert labels[..j] == labels;
  }

  /** The inner loop of the row emission: one row per record of a sorted list, pushed in order. */
  method EmitGroup(reg: Registry, lines: seq<string>, group: seq<Record>) returns (out: seq<string>)
    ensures out == lines + Rows(reg, group)
  {
    out := lines;
    var t := 0;
    while t < |group|
      invariant 0 <= t <= |group|
      invariant out == lines + Rows(reg, group[..t])
    {
      RowsStep(reg, lines, group, t);
      out := out + [FormatRow(reg, group[t])];
      t := t + 1;
    }
    assert group[..t] == group;
  }
}

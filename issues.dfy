/**
  Per-issue derivations shared by render-rfc-table.js and fetch-issues.js:
  the metadata parsed out of an issue body (`findMetadata`), the design
  document matched by number (`findDocFile`), the link chosen for the title
  and the record both scripts build for every kept issue. `findMetadata` and
  `findDocFile` are textually identical in the two scripts. `determineStatus`
  differs only in the key list it consults, which is a parameter here; the
  skip rules differ in the `--status` filter that fetch-issues.js applies,
  which `Keep` takes as an option; and fetch-issues.js adds a `warning` field
  to its records that nothing reads. The rest is modelled once.
 */
module Issues {
  import opened Wrappers
  import opened Strings
  import StatusRegistry

  /**
    An issue as the GitHub API returns it, reduced to the fields the scripts
    read. `body` and `assignee` may be absent (`null`); `assignee` holds the
    assignee's login.
   */
  datatype Issue = Issue(
    number: nat,
    title: string,
    body: Option<string>,
    labelNames: seq<string>,
    assignee: Option<string>,
    isPullRequest: bool,
    closed: bool)

  /**
    The object `findMetadata` returns. `prNumber` is `None` when the body has
    no metadata table (the property is then missing), otherwise the text after
    `#`, which may be empty.
   */
  datatype Metadata = Metadata(champion: string, prNumber: Option<string>)

  /**
    The two ways `findMetadata` throws a TypeError: the header line has no
    line two below it, or that line has no `|` so the PR cell is undefined.
   */
  datatype MetadataError = MissingDataRow | MissingPrCell

  /** The record pushed for every kept issue. */
  datatype Record = Record(
    number: nat,
    title: string,
    link: string,
    assignee: Option<string>,
    champion: string,
    status: string,
    doc: Option<string>)

  const MetadataHeader: string := "|PR|Champion|"
  const RepoUrl: string := "https://github.com/aws/aws-cdk-rfcs"
  const DocUrlPrefix: string := RepoUrl + "/blob/main/text/"
  const PullUrlPrefix: string := RepoUrl + "/pull/"
  const IssueUrlPrefix: string := RepoUrl + "/issues/"

  /** `issue.body || ''` */
  function BodyText(body: Option<string>): string {
    if body.Some? then body.value else ""
  }

  /** `lines.findIndex(line => line.startsWith('|PR|Champion|'))`, `None` for -1. */
  function HeaderIndex(lines: seq<string>): (r: Option<nat>)
    ensures r.None? <==> forall j :: 0 <= j < |lines| ==> !StartsWith(lines[j], MetadataHeader)
    ensures r.Some? ==> r.value < |lines| && StartsWith(lines[r.value], MetadataHeader)
    ensures r.Some? ==> forall j :: 0 <= j < r.value ==> !StartsWith(lines[j], MetadataHeader)
  {
    if lines == [] then None
    else if StartsWith(lines[0], MetadataHeader) then Some(0)
    else
      match HeaderIndex(lines[1..])
      case None => None
      case Some(i) => Some(i + 1)
  }

  /**
    `let [, pr, champion] = row.split('|')` and what follows: the champion is
    the third cell trimmed, the PR number the second cell with its leading `#`
    removed, trimmed, and empty when the cell does not start with `#`.
   */
  function ParseDataRow(row: string): Result<Metadata, MetadataError>
  {
    var cells := Split(row, '|');
    if |cells| < 2 then Failure(MissingPrCell)
    else
      var champion := if |cells| > 2 && cells[2] != "" then Trim(cells[2]) else "";
      var pr := cells[1];
      Success(Metadata(champion, Some(Trim(if StartsWith(pr, "#") then pr[1..] else ""))))
  }

  /** `findMetadata(issue)` */
  function FindMetadata(body: Option<string>): Result<Metadata, MetadataError>
  {
    var lines := Split(BodyText(body), '\n');
    match HeaderIndex(lines)
    case None => Success(Metadata("", None))
    case Some(t) =>
      if t + 2 < |lines| then ParseDataRow(lines[t + 2]) else Failure(MissingDataRow)
  }

  /** A body without a metadata header, or no body at all, gives an empty champion and no PR number. */
  lemma MetadataWithoutHeader(body: Option<string>)
    requires forall j :: 0 <= j < |Split(BodyText(body), '\n')| ==>
               !StartsWith(Split(BodyText(body), '\n')[j], MetadataHeader)
    ensures FindMetadata(body) == Success(Metadata("", None))
  {
  }

  /** An absent body is read as the empty text, which has no header. */
  lemma MetadataOfAbsentBody()
    ensures FindMetadata(None) == Success(Metadata("", None))
  {
    assert Split("", '\n') == [""];
    assert !StartsWith("", MetadataHeader);
  }

  /**
    For a body made of lines, the first header line decides: the line two
    below it is parsed, and a missing line is an error.
   */
  lemma {:induction false} MetadataFromLines(lines: seq<string>, t: nat)
    requires |lines| >= 1
    requires forall j :: 0 <= j < |lines| ==> '\n' !in lines[j]
    requires t < |lines| && StartsWith(lines[t], MetadataHeader)
    requires forall j :: 0 <= j < t ==> !StartsWith(lines[j], MetadataHeader)
    ensures t + 2 < |lines| ==> FindMetadata(Some(Join(lines, '\n'))) == ParseDataRow(lines[t + 2])
    ensures t + 2 >= |lines| ==> FindMetadata(Some(Join(lines, '\n'))) == Failure(MissingDataRow)
  {
    SplitJoin(lines, '\n');
  }

  /** A data row without any `|` has no PR cell: `findMetadata` throws. */
  lemma RowWithoutBarFails(row: string)
    requires '|' !in row
    ensures ParseDataRow(row) == Failure(MissingPrCell)
  {
  }

  /**
    A data row `<lead>|<pr>|<champion>|...`: the champion is the trimmed third
    cell, or empty when the row has no third cell, and the PR number is what
    follows a leading `#` in the second cell, trimmed (untrimmed `pr`, so
    ` #42` gives the empty string).
   */
  lemma {:induction false} DataRowCells(cells: seq<string>)
    requires |cells| >= 2
    requires forall j :: 0 <= j < |cells| ==> '|' !in cells[j]
    ensures ParseDataRow(Join(cells, '|')) ==
      Success(Metadata(if |cells| > 2 then Trim(cells[2]) else "",
                       Some(if StartsWith(cells[1], "#") then Trim(cells[1][1..]) else "")))
  {
    SplitJoin(cells, '|');
    assert Trim("") == "";
  }

  /** `parseInt(file.split('-')[0]) === number` */
  predicate DocMatches(file: string, number: nat) {
    ParseLeadingInt(Split(file, '-')[0]) == Some(number)
  }

  /** The position of the first file whose number prefix is `number`. */
  function DocIndex(files: seq<string>, number: nat): (r: Option<nat>)
    ensures r.None? <==> forall j :: 0 <= j < |files| ==> !DocMatches(files[j], number)
    ensures r.Some? ==> r.value < |files| && DocMatches(files[r.value], number)
    ensures r.Some? ==> forall j :: 0 <= j < r.value ==> !DocMatches(files[j], number)
  {
    if files == [] then None
    else if DocMatches(files[0], number) then Some(0)
    else
      match DocIndex(files[1..], number)
      case None => None
      case Some(i) => Some(i + 1)
  }

  /** `files.find(...)`: the first file in listing order whose number prefix is `number`. */
  function FindDocFile(files: seq<string>, number: nat): (doc: Option<string>)
    ensures doc.None? <==> forall j :: 0 <= j < |files| ==> !DocMatches(files[j], number)
    ensures doc.Some? ==> DocIndex(files, number).Some? && doc.value == files[DocIndex(files, number).value]
  {
    match DocIndex(files, number)
    case None => None
    case Some(i) => Some(files[i])
  }

  /** A matched document name is never empty, so `if (doc)` takes it. */
  lemma MatchedDocIsNonEmpty(file: string, number: nat)
    requires DocMatches(file, number)
    ensures file != ""
  {
  }

  /** The zero-padded numbering `0042-name.md` of the design documents matches issue 42. */
  lemma {:induction false} PaddedDocMatches(zeros: nat, number: nat, rest: string)
    ensures DocMatches(seq(zeros, _ => '0') + NatToString(number) + "-" + rest, number)
  {
    var z := seq(zeros, _ => '0');
    var ds := z + NatToString(number);
    var file := ds + ("-" + rest);
    assert file == z + NatToString(number) + "-" + rest;
    SplitPrefix(ds, "-" + rest, '-');
    assert Split("-" + rest, '-')[0] == "";
    assert Split(file, '-')[0] == ds;
    LeadingDigitsOf(ds, "");
    assert ds + "" == ds;
    LeadingZerosValue(zeros, NatToString(number));
    NatToStringValue(number);
  }

  lemma {:induction false} LeadingZerosValue(zeros: nat, ds: string)
    requires AllDigits(ds)
    ensures AllDigits(seq(zeros, _ => '0') + ds)
    ensures DigitsValue(seq(zeros, _ => '0') + ds) == DigitsValue(ds)
  {
    var z := seq(zeros, _ => '0');
    if ds == [] {
      assert z + ds == z;
      ZerosValue(zeros);
    } else {
      var init := ds[..|ds| - 1];
      LeadingZerosValue(zeros, init);
      assert (z + ds)[..|z + ds| - 1] == z + init;
    }
  }

  lemma {:induction false} ZerosValue(zeros: nat)
    ensures DigitsValue(seq(zeros, _ => '0')) == 0
  {
    if zeros > 0 {
      ZerosValue(zeros - 1);
      assert seq(zeros, _ => '0')[..zeros - 1] == seq(zeros - 1, _ => '0');
    }
  }

  /**
    The link of the title cell: the design document if one matched, else the
    pull request if a non-empty PR number was found, else the issue itself.
   */
  function ResolveLink(number: nat, doc: Option<string>, prNumber: Option<string>): string
  {
    if doc.Some? && doc.value != "" then DocUrlPrefix + doc.value
    else if prNumber.Some? && prNumber.value != "" then PullUrlPrefix + prNumber.value
    else IssueUrlPrefix + NatToString(number)
  }

  /**
    Link priority, stated by what the link names: a matched document wins,
    then a PR number, and only then the issue, whose number reads back from
    the link.
   */
  lemma LinkPriority(number: nat, doc: Option<string>, prNumber: Option<string>)
    ensures doc.Some? && doc.value != "" ==>
      ResolveLink(number, doc, prNumber) == DocUrlPrefix + doc.value
    ensures (doc.None? || doc.value == "") && prNumber.Some? && prNumber.value != "" ==>
      ResolveLink(number, doc, prNumber) == PullUrlPrefix + prNumber.value
    ensures (doc.None? || doc.value == "") && (prNumber.None? || prNumber.value == "") ==>
      var link := ResolveLink(number, doc, prNumber);
      StartsWith(link, IssueUrlPrefix) &&
      ParseLeadingInt(link[|IssueUrlPrefix|..]) == Some(number)
  {
    var link := ResolveLink(number, doc, prNumber);
    if (doc.None? || doc.value == "") && (prNumber.None? || prNumber.value == "") {
      assert link[|IssueUrlPrefix|..] == NatToString(number) + "";
      ParseNatToString(number, "");
    }
  }

  /**
    The record pushed for a kept issue of the given status; fails as
    `findMetadata` does.
   */
  function ToRecord(issue: Issue, status: string, files: seq<string>): Result<Record, MetadataError>
  {
    match FindMetadata(issue.body)
    case Failure(e) => Failure(e)
    case Success(meta) =>
      var doc := FindDocFile(files, issue.number);
      Success(Record(issue.number, issue.title, ResolveLink(issue.number, doc, meta.prNumber),
                     issue.assignee, meta.champion, status, doc))
  }

  /**
    A record carries the issue's number, title, assignee and the given status,
    the champion read from the body, and a link that is the matched document
    whenever there is one, and otherwise the link chosen from the PR number
    read from the body.
   */
  lemma RecordOfIssue(issue: Issue, status: string, files: seq<string>)
    requires ToRecord(issue, status, files).Success?
    ensures FindMetadata(issue.body).Success?
    ensures var r := ToRecord(issue, status, files).value;
      r.number == issue.number && r.title == issue.title && r.assignee == issue.assignee &&
      r.status == status && r.doc == FindDocFile(files, issue.number) &&
      r.champion == FindMetadata(issue.body).value.champion &&
      (r.doc.Some? ==> r.link == DocUrlPrefix + r.doc.value) &&
      (r.doc.None? ==> r.link == ResolveLink(issue.number, None, FindMetadata(issue.body).value.prNumber))
  {
    var doc := FindDocFile(files, issue.number);
    if doc.Some? {
      MatchedDocIsNonEmpty(doc.value, issue.number);
    }
  }

  /**
    The records built, in order, for a sequence of kept issues, each with the
    status the classifier gives it over `keys`; the first issue whose metadata
    throws aborts the whole run with that error.
   */
  function RecordsOf(keys: seq<string>, issues: seq<Issue>, files: seq<string>): Result<seq<Record>, MetadataError>
  {
    CollectResults(issues, (issue: Issue) => ToRecord(issue, StatusRegistry.StatusOf(keys, issue.labelNames), files))
  }

  /** The run fails exactly when some issue's metadata throws; otherwise there is one record per issue. */
  lemma {:induction false} RecordsOfSpec(keys: seq<string>, issues: seq<Issue>, files: seq<string>)
    ensures RecordsOf(keys, issues, files).Failure? <==>
      exists i :: 0 <= i < |issues| && FindMetadata(issues[i].body).Failure?
    ensures RecordsOf(keys, issues, files).Success? ==>
      var recs := RecordsOf(keys, issues, files).value;
      |recs| == |issues| &&
      forall i :: 0 <= i < |issues| ==>
        ToRecord(issues[i], StatusRegistry.StatusOf(keys, issues[i].labelNames), files) == Success(recs[i])
  {
    var f := (issue: Issue) => ToRecord(issue, StatusRegistry.StatusOf(keys, issue.labelNames), files);
    CollectResultsFails(issues, f);
    if CollectResults(issues, f).Failure? {
      var i :| 0 <= i < |issues| && f(issues[i]).Failure?;
      assert FindMetadata(issues[i].body).Failure?;
    } else {
      forall i | 0 <= i < |issues| ensures FindMetadata(issues[i].body).Success? {
        assert f(issues[i]).Success?;
      }
    }
  }

  /** One more issue: its record is appended, or its failure becomes the outcome. */
  lemma {:induction false} RecordsOfSnoc(keys: seq<string>, xs: seq<Issue>, x: Issue, files: seq<string>)
    ensures RecordsOf(keys, xs + [x], files) ==
      match RecordsOf(keys, xs, files)
      case Failure(e) => Failure(e)
      case Success(rs) =>
        match ToRecord(x, StatusRegistry.StatusOf(keys, x.labelNames), files)
        case Failure(e) => Failure(e)
        case Success(rec) => Success(rs + [rec])
  {
    assert (xs + [x])[..|xs|] == xs;
  }

  /** Once an issue has thrown, the issues after it change nothing. */
  lemma RecordsOfFailureSticks(keys: seq<string>, xs: seq<Issue>, ys: seq<Issue>, files: seq<string>)
    requires RecordsOf(keys, xs, files).Failure?
    ensures RecordsOf(keys, xs + ys, files) == RecordsOf(keys, xs, files)
  {
    CollectFailureSticks(xs, ys, (issue: Issue) => ToRecord(issue, StatusRegistry.StatusOf(keys, issue.labelNames), files));
  }

  // ---------------------------------------------------------------------------
  // Which issues get a record, and the list of records of one status

  /**
    Whether an issue gets a record: pull requests are skipped, so are issues
    whose status is not among the requested ones when a filter is given, and
    closed issues of unknown status. render-rfc-table.js applies no filter.
   */
  predicate Keep(keys: seq<string>, filter: Option<seq<string>>, issue: Issue) {
    var status := StatusRegistry.StatusOf(keys, issue.labelNames);
    !issue.isPullRequest &&
    (filter.None? || status in filter.value) &&
    !(issue.closed && status == StatusRegistry.UnknownStatus)
  }

  /** The issues that get a record, in the order the API returned them. */
  function Kept(keys: seq<string>, filter: Option<seq<string>>, issues: seq<Issue>): (kept: seq<Issue>)
  {
    if issues == [] then []
    else
      var init := issues[..|issues| - 1];
      var last := issues[|issues| - 1];
      Kept(keys, filter, init) + (if Keep(keys, filter, last) then [last] else [])
  }

  /** Each kept issue is kept once per occurrence in the input; every other issue is dropped. */
  lemma {:induction false} KeptIsFilter(keys: seq<string>, filter: Option<seq<string>>, issues: seq<Issue>)
    ensures forall x :: multiset(Kept(keys, filter, issues))[x] == if Keep(keys, filter, x) then multiset(issues)[x] else 0
  {
    if issues != [] {
      var init := issues[..|issues| - 1];
      var last := issues[|issues| - 1];
      assert issues == init + [last];
      KeptIsFilter(keys, filter, init);
    }
  }

  /** The list `issueByStatus[status]` holds after all pushes: the records of that status, in order. */
  function InGroup(recs: seq<Record>, status: string): (g: seq<Record>)
    ensures forall i :: 0 <= i < |g| ==> g[i].status == status
  {
    if recs == [] then []
    else
      var init := recs[..|recs| - 1];
      var last := recs[|recs| - 1];
      InGroup(init, status) + (if last.status == status then [last] else [])
  }

  /** Pushing one more record extends the list of its own status only. */
  lemma {:induction false} InGroupSnoc(recs: seq<Record>, v: Record)
    ensures forall s :: InGroup(recs + [v], s) == InGroup(recs, s) + (if v.status == s then [v] else [])
  {
    assert (recs + [v])[..|recs|] == recs;
  }

  /** A status list holds every record of that status, once per occurrence, and nothing else. */
  lemma {:induction false} InGroupIsFilter(recs: seq<Record>, status: string)
    ensures forall x :: multiset(InGroup(recs, status))[x] == if x.status == status then multiset(recs)[x] else 0
  {
    if recs != [] {
      var init := recs[..|recs| - 1];
      var last := recs[|recs| - 1];
      assert recs == init + [last];
      InGroupIsFilter(init, status);
    }
  }

  /** A kept issue is an issue of the input that passes the filter. */
  lemma {:induction false} KeptMember(keys: seq<string>, filter: Option<seq<string>>, issues: seq<Issue>, x: Issue)
    requires x in Kept(keys, filter, issues)
    ensures x in issues && Keep(keys, filter, x)
  {
    var init := issues[..|issues| - 1];
    var last := issues[|issues| - 1];
    if x in Kept(keys, filter, init) {
      KeptMember(keys, filter, init, x);
      assert init[..] <= issues;
    }
  }

  lemma {:induction false} KeptSnoc(keys: seq<string>, filter: Option<seq<string>>, xs: seq<Issue>, x: Issue)
    ensures Keep(keys, filter, x) ==> Kept(keys, filter, xs + [x]) == Kept(keys, filter, xs) + [x]
    ensures !Keep(keys, filter, x) ==> Kept(keys, filter, xs + [x]) == Kept(keys, filter, xs)
  {
    assert (xs + [x])[..|xs|] == xs;
  }

  /** The loop over the issues keeps one more issue, or none. */
  lemma {:induction false} KeptStep(keys: seq<string>, filter: Option<seq<string>>, issues: seq<Issue>, i: nat)
    requires i < |issues|
    ensures Keep(keys, filter, issues[i]) ==> Kept(keys, filter, issues[..i + 1]) == Kept(keys, filter, issues[..i]) + [issues[i]]
    ensures !Keep(keys, filter, issues[i]) ==> Kept(keys, filter, issues[..i + 1]) == Kept(keys, filter, issues[..i])
  {
    TakeSnoc(issues, i);
    KeptSnoc(keys, filter, issues[..i], issues[i]);
  }

  /** The issues kept from the whole input: those kept up to `i`, then those kept after it. */
  lemma {:induction false} KeptRest(keys: seq<string>, filter: Option<seq<string>>, issues: seq<Issue>, i: nat)
    requires i < |issues|
    ensures Kept(keys, filter, issues) == Kept(keys, filter, issues[..i + 1]) + Kept(keys, filter, issues[i + 1..])
  {
    assert issues == issues[..i + 1] + issues[i + 1..];
    KeptAppend(keys, filter, issues[..i + 1], issues[i + 1..]);
  }

  lemma {:induction false} KeptAppend(keys: seq<string>, filter: Option<seq<string>>, xs: seq<Issue>, ys: seq<Issue>)
    ensures Kept(keys, filter, xs + ys) == Kept(keys, filter, xs) + Kept(keys, filter, ys)
  {
    if ys != [] {
      var init := ys[..|ys| - 1];
      var last := ys[|ys| - 1];
      KeptAppend(keys, filter, xs, init);
      assert xs + ys == (xs + init) + [last];
      KeptSnoc(keys, filter, xs + init, last);
      KeptSnoc(keys, filter, init, last);
      assert ys == init + [last];
    } else {
      assert xs + ys == xs;
    }
  }
}

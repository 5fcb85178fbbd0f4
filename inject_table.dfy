/**
  inject-table.js: normalises the `--status` values, then replaces the lines
  of the README between the table markers with the rendered table. The README
  is read as text, split on line feeds, spliced, joined with line feeds and
  written back; reading and writing the file are left to the caller, who
  passes the text in and gets the new text back.
 */
module InjectTable {
  import opened Wrappers
  import opened Strings
  import opened StatusRegistry
  import opened Issues
  import RenderRfcTable

  const StatusPrefix: string := "status/"
  const BeginMarker: string := "<!--BEGIN_TABLE-->"
  const EndMarker: string := "<!--END_TABLE-->"

  // ---------------------------------------------------------------------------
  // --status values

  /** A `--status` value as a label name: `status/` is added unless already there. */
  function NormalizeStatus(s: string): (r: string)
    ensures StartsWith(r, StatusPrefix)
    ensures StartsWith(s, StatusPrefix) ==> r == s
    ensures !StartsWith(s, StatusPrefix) ==> r[|StatusPrefix|..] == s
  {
    if StartsWith(s, StatusPrefix) then s else StatusPrefix + s
  }

  /** Normalising a normalised value changes nothing. */
  lemma NormalizeIdempotent(s: string)
    ensures NormalizeStatus(NormalizeStatus(s)) == NormalizeStatus(s)
  {
    assert StartsWith(NormalizeStatus(s), StatusPrefix);
  }

  /** `status?.map(...)`: absent stays absent, every value is normalised in place. */
  function NormalizeStatuses(status: Option<seq<string>>): (r: Option<seq<string>>)
    ensures r.None? <==> status.None?
    ensures r.Some? ==> |r.value| == |status.value|
    ensures r.Some? ==> forall i :: 0 <= i < |r.value| ==> StartsWith(r.value[i], StatusPrefix)
    ensures r.Some? ==> forall i :: 0 <= i < |r.value| ==> r.value[i] == NormalizeStatus(status.value[i])
  {
    match status
    case None => None
    case Some(ss) => Some(seq(|ss|, i requires 0 <= i < |ss| => NormalizeStatus(ss[i])))
  }

  /** Normalising the list twice is normalising it once. */
  lemma NormalizeStatusesIdempotent(status: Option<seq<string>>)
    ensures NormalizeStatuses(NormalizeStatuses(status)) == NormalizeStatuses(status)
  {
    if status.Some? {
      var once := NormalizeStatuses(status).value;
      var twice := NormalizeStatuses(NormalizeStatuses(status)).value;
      forall i | 0 <= i < |once| ensures twice[i] == once[i] {
        NormalizeIdempotent(status.value[i]);
      }
      assert twice == once;
    }
  }

  // ---------------------------------------------------------------------------
  // The splice

  datatype InjectError = MissingMarkers | RenderFailed(error: MetadataError)

  /**
    `[...lines.slice(0, begin + 1), ...table, ...lines.slice(end)]` with
    `begin` and `end` the first lines equal to the markers; an error when
    either marker is not a line.
   */
  function Splice(lines: seq<string>, table: seq<string>): (r: Result<seq<string>, InjectError>)
    ensures r.Failure? <==> BeginMarker !in lines || EndMarker !in lines
    ensures r.Failure? ==> r.error == MissingMarkers
  {
    var begin := FirstIndexOf(lines, BeginMarker);
    var end := FirstIndexOf(lines, EndMarker);
    if begin.None? || end.None? then Failure(MissingMarkers)
    else Success(lines[..begin.value + 1] + table + lines[end.value..])
  }

  /**
    With the first begin marker at `b` and the first end marker at `e`, the
    result keeps the lines up to and including `b`, then the table, then the
    lines from `e` on.
   */
  lemma SpliceShape(lines: seq<string>, table: seq<string>, b: nat, e: nat)
    requires b < |lines| && lines[b] == BeginMarker && BeginMarker !in lines[..b]
    requires e < |lines| && lines[e] == EndMarker && EndMarker !in lines[..e]
    ensures Splice(lines, table).Success?
    ensures var r := Splice(lines, table).value;
      |r| == b + 1 + |table| + (|lines| - e) &&
      r[..b + 1] == lines[..b + 1] &&
      r[b + 1..b + 1 + |table|] == table &&
      r[b + 1 + |table|..] == lines[e..]
  {
    SpliceAt(lines, table, b, e);
    var r := lines[..b + 1] + table + lines[e..];
    assert r[..b + 1] == lines[..b + 1];
    assert r[b + 1..b + 1 + |table|] == table;
  }

  /** The splice at the first markers, as one value. */
  lemma SpliceAt(lines: seq<string>, table: seq<string>, b: nat, e: nat)
    requires b < |lines| && lines[b] == BeginMarker && BeginMarker !in lines[..b]
    requires e < |lines| && lines[e] == EndMarker && EndMarker !in lines[..e]
    ensures Splice(lines, table) == Success(lines[..b + 1] + table + lines[e..])
  {
    FirstIndexIs(lines, BeginMarker, b);
    FirstIndexIs(lines, EndMarker, e);
  }

  /** A position holding `x` with no earlier `x` is where the search stops. */
  lemma FirstIndexIs(xs: seq<string>, x: string, p: nat)
    requires p < |xs| && xs[p] == x && x !in xs[..p]
    ensures FirstIndexOf(xs, x) == Some(p)
  {
  }

  /**
    Injecting the same table again changes nothing, provided the begin marker
    comes first and no table line is a marker.
   */
  lemma {:induction false} SpliceIdempotent(lines: seq<string>, table: seq<string>)
    requires Splice(lines, table).Success?
    requires FirstIndexOf(lines, BeginMarker).value < FirstIndexOf(lines, EndMarker).value
    requires forall i :: 0 <= i < |table| ==> table[i] != BeginMarker && table[i] != EndMarker
    ensures Splice(Splice(lines, table).value, table) == Splice(lines, table)
  {
    var b := FirstIndexOf(lines, BeginMarker).value;
    var e := FirstIndexOf(lines, EndMarker).value;
    SpliceAt(lines, table, b, e);
    var r := lines[..b + 1] + table + lines[e..];
    ResplicedMarkers(lines, table, b, e);
    SpliceAt(r, table, b, b + 1 + |table|);
    assert r[..b + 1] == lines[..b + 1];
    assert r[b + 1 + |table|..] == lines[e..];
  }

  /** In a spliced text the first markers are the begin marker kept and the end marker after the table. */
  lemma {:induction false} ResplicedMarkers(lines: seq<string>, table: seq<string>, b: nat, e: nat)
    requires b < e < |lines|
    requires lines[b] == BeginMarker && BeginMarker !in lines[..b]
    requires lines[e] == EndMarker && EndMarker !in lines[..e]
    requires forall i :: 0 <= i < |table| ==> table[i] != BeginMarker && table[i] != EndMarker
    ensures var r := lines[..b + 1] + table + lines[e..];
      r[b] == BeginMarker && BeginMarker !in r[..b] &&
      r[b + 1 + |table|] == EndMarker && EndMarker !in r[..b + 1 + |table|]
  {
    var head := lines[..b + 1];
    var r := head + table + lines[e..];
    assert r[..b] == lines[..b];
    assert r[..b + 1 + |table|] == head + table;
    assert head == lines[..e][..b + 1];
  }

  // ---------------------------------------------------------------------------
  // The file text

  /** The new README text for a table: split on line feeds, spliced, joined again. */
  function InjectText(text: string, table: seq<string>): (r: Result<string, InjectError>)
    ensures r.Failure? <==> BeginMarker !in Split(text, '\n') || EndMarker !in Split(text, '\n')
  {
    match Splice(Split(text, '\n'), table)
    case Failure(e) => Failure(e)
    case Success(final) => Success(Join(final, '\n'))
  }

  /**
    Whatever the table holds, the new text splits into the lines up to and
    including the begin marker, unchanged, then the table's lines as they read
    back from the file, then the lines from the end marker on, unchanged.
   */
  lemma InjectTextOuterLines(text: string, table: seq<string>)
    requires InjectText(text, table).Success?
    ensures var lines := Split(text, '\n');
      var b := FirstIndexOf(lines, BeginMarker).value;
      var e := FirstIndexOf(lines, EndMarker).value;
      Split(InjectText(text, table).value, '\n') == lines[..b + 1] + Resplit(table, '\n') + lines[e..]
  {
    var lines := Split(text, '\n');
    var b := FirstIndexOf(lines, BeginMarker).value;
    var e := FirstIndexOf(lines, EndMarker).value;
    var p, q := lines[..b + 1], lines[e..];
    assert forall i :: 0 <= i < |p| ==> p[i] == lines[i];
    assert forall i :: 0 <= i < |q| ==> q[i] == lines[e + i];
    SplitJoinAround(p, table, q, '\n');
  }

  /**
    When no table line holds a line feed, the new text splits into exactly the
    spliced lines.
   */
  lemma InjectTextLines(text: string, table: seq<string>)
    requires InjectText(text, table).Success?
    requires forall i :: 0 <= i < |table| ==> '\n' !in table[i]
    ensures Split(InjectText(text, table).value, '\n') == Splice(Split(text, '\n'), table).value
  {
    InjectTextOuterLines(text, table);
    ResplitSeparatorFree(table, '\n');
  }

  /** Injecting the same table into the new text gives the same text. */
  lemma InjectTextIdempotent(text: string, table: seq<string>)
    requires InjectText(text, table).Success?
    requires FirstIndexOf(Split(text, '\n'), BeginMarker).value < FirstIndexOf(Split(text, '\n'), EndMarker).value
    requires forall i :: 0 <= i < |table| ==>
      '\n' !in table[i] && table[i] != BeginMarker && table[i] != EndMarker
    ensures InjectText(InjectText(text, table).value, table) == InjectText(text, table)
  {
    InjectTextLines(text, table);
    SpliceIdempotent(Split(text, '\n'), table);
  }

  /**
    `main()` after the arguments are parsed: the markers are checked before
    the table is rendered, then the rendered table is spliced in. The
    normalised `--status` list is handed to `render`, which declares no
    parameters, so `status` has no effect on the text.
   */
  function Inject(text: string, status: Option<seq<string>>, issues: seq<Issue>, files: seq<string>)
    : Result<string, InjectError>
  {
    var statusList := NormalizeStatuses(status);
    var lines := Split(text, '\n');
    if BeginMarker !in lines || EndMarker !in lines then Failure(MissingMarkers)
    else
      match RenderRfcTable.RenderedTable(Display, issues, files)
      case Failure(e) => Failure(RenderFailed(e))
      case Success(table) => InjectText(text, table)
  }

  /**
    A missing marker is reported whatever the issues are, before anything is
    rendered; otherwise the outcome is the render's error or the table
    spliced into the text.
   */
  lemma InjectOutcome(text: string, status: Option<seq<string>>, issues: seq<Issue>, files: seq<string>)
    ensures var lines := Split(text, '\n');
      (BeginMarker !in lines || EndMarker !in lines) ==> Inject(text, status, issues, files) == Failure(MissingMarkers)
    ensures var lines := Split(text, '\n');
      var rendered := RenderRfcTable.RenderedTable(Display, issues, files);
      BeginMarker in lines && EndMarker in lines && rendered.Failure? ==>
        Inject(text, status, issues, files) == Failure(RenderFailed(rendered.error))
    ensures var lines := Split(text, '\n');
      var rendered := RenderRfcTable.RenderedTable(Display, issues, files);
      BeginMarker in lines && EndMarker in lines && rendered.Success? ==>
        Inject(text, status, issues, files).Success? &&
        Inject(text, status, issues, files) == InjectText(text, rendered.value)
  {
  }

  // ---------------------------------------------------------------------------
  // The status filter that `render` drops

  /**
    The requested statuses with repeats dropped, so that `--status done
    --status done` lists the done issues once; a list without repeats is kept
    as it is.
   */
  function Deduplicated(s: seq<string>): (r: seq<string>)
    ensures Distinct(r)
    ensures forall x :: x in r <==> x in s
    ensures Distinct(s) ==> r == s
  {
    if s == [] then []
    else
      var init := s[..|s| - 1];
      var d := Deduplicated(init);
      assert s == init + [s[|s| - 1]];
      if s[|s| - 1] in d then d else d + [s[|s| - 1]]
  }

  /** The order of the status lists: the filter's own order without repeats, or the registry's without a filter. */
  function GroupOrder(keys: seq<string>, filter: Option<seq<string>>): seq<string> {
    if filter.Some? then Deduplicated(filter.value) else keys
  }

  /**
    The table a `render(statusList)` honouring the filter returns: only issues
    whose status is requested, their lists in the order requested.
   */
  function FilteredTable(reg: Registry, filter: Option<seq<string>>, issues: seq<Issue>, files: seq<string>)
    : Result<seq<string>, MetadataError>
  {
    var keys := Keys(reg);
    match RecordsOf(keys, Kept(keys, filter, issues), files)
    case Failure(e) => Failure(e)
    case Success(recs) =>
      Success([RenderRfcTable.Header, RenderRfcTable.Separator] +
              RenderRfcTable.Rows(reg, RenderRfcTable.Grouped(recs, GroupOrder(keys, filter))))
  }

  /** Every record built under a filter has a requested status. */
  lemma {:induction false} RecordsPassFilter(keys: seq<string>, filter: seq<string>, issues: seq<Issue>, files: seq<string>)
    requires RecordsOf(keys, Kept(keys, Some(filter), issues), files).Success?
    ensures forall x :: x in RecordsOf(keys, Kept(keys, Some(filter), issues), files).value ==> x.status in filter
  {
    var kept := Kept(keys, Some(filter), issues);
    var recs := RecordsOf(keys, kept, files).value;
    RecordsOfSpec(keys, kept, files);
    forall x | x in recs ensures x.status in filter {
      var i :| 0 <= i < |recs| && recs[i] == x;
      assert kept[i] in kept;
      KeptMember(keys, Some(filter), issues, kept[i]);
      RecordOfIssue(kept[i], StatusOf(keys, kept[i].labelNames), files);
    }
  }

  /**
    With the filter honoured, the table is the header, the separator and one
    row per issue kept under the filter; the rows list every kept record once,
    status by status in the filter's order, by ascending number within a
    status, and no status outside the filter appears.
   */
  lemma {:induction false} FilteredTableOutput(reg: Registry, filter: Option<seq<string>>, issues: seq<Issue>, files: seq<string>)
    requires ValidRegistry(reg)
    requires FilteredTable(reg, filter, issues, files).Success?
    ensures RecordsOf(Keys(reg), Kept(Keys(reg), filter, issues), files).Success?
    ensures var lines := FilteredTable(reg, filter, issues, files).value;
      var recs := RecordsOf(Keys(reg), Kept(Keys(reg), filter, issues), files).value;
      var order := GroupOrder(Keys(reg), filter);
      var g := RenderRfcTable.Grouped(recs, order);
      |lines| == 2 + |Kept(Keys(reg), filter, issues)| &&
      lines[0] == RenderRfcTable.Header && lines[1] == RenderRfcTable.Separator &&
      multiset(g) == multiset(recs) &&
      RenderRfcTable.OrderedByStatusThenNumber(g, order) &&
      (filter.Some? ==> forall i :: 0 <= i < |g| ==> g[i].status in filter.value) &&
      lines[2..] == RenderRfcTable.Rows(reg, g)
  {
    var keys := Keys(reg);
    var kept := Kept(keys, filter, issues);
    var recs := RecordsOf(keys, kept, files).value;
    var order := GroupOrder(keys, filter);
    RecordsOfSpec(keys, kept, files);
    if filter.Some? {
      RecordsPassFilter(keys, filter.value, issues, files);
    } else {
      RenderRfcTable.RecordsListed(keys, kept, files);
    }
    RenderRfcTable.GroupedKeepsAll(recs, order);
    RenderRfcTable.GroupedIsOrdered(recs, order);
    var g := RenderRfcTable.Grouped(recs, order);
    assert |g| == |multiset(g)| == |multiset(recs)| == |recs|;
  }

  /** Without a filter the corrected table is the one `render()` returns today. */
  lemma FilteredTableWithoutFilter(reg: Registry, issues: seq<Issue>, files: seq<string>)
    ensures FilteredTable(reg, None, issues, files) == RenderRfcTable.RenderedTable(reg, issues, files)
  {
  }

  /** The example issue of `StatusOptionIgnored`: open, labelled `status/proposed`, no body. */
  function ProposedIssue(): Issue {
    Issue(1, "t", None, ["status/proposed"], None, false, false)
  }

  lemma ProposedIssueStatus()
    ensures StatusOf(Keys(Display), ProposedIssue().labelNames) == "status/proposed"
  {
    assert Keys(Display)[7] == "status/proposed";
    SingleMatchIsStatus(Keys(Display), ProposedIssue().labelNames, 0);
  }

  lemma DoneFilter()
    ensures NormalizeStatuses(Some(["done"])) == Some(["status/done"])
  {
    var f := NormalizeStatuses(Some(["done"])).value;
    assert !StartsWith("done", StatusPrefix);
    assert f[0] == StatusPrefix + "done" == "status/done";
    assert f == ["status/done"];
  }

  /** The example issue gets a record, and the render gives it a row. */
  lemma ProposedIssueRendered()
    ensures var rendered := RenderRfcTable.RenderedTable(Display, [ProposedIssue()], []);
      rendered.Success? && |rendered.value| == 3
  {
    var keys := Keys(Display);
    ProposedIssueStatus();
    assert Keep(keys, None, ProposedIssue());
    KeptSnoc(keys, None, [], ProposedIssue());
    assert Kept(keys, None, [ProposedIssue()]) == [ProposedIssue()];
    MetadataOfAbsentBody();
    RecordsOfSpec(keys, [ProposedIssue()], []);
    DisplayIsValid();
    RenderRfcTable.RenderOutput(Display, [ProposedIssue()], []);
  }

  /** Under `--status done` the example issue is filtered out. */
  lemma ProposedIssueFiltered()
    ensures var filtered := FilteredTable(Display, Some(["status/done"]), [ProposedIssue()], []);
      filtered.Success? && |filtered.value| == 2
  {
    var keys := Keys(Display);
    ProposedIssueStatus();
    assert !Keep(keys, Some(["status/done"]), ProposedIssue());
    KeptSnoc(keys, Some(["status/done"]), [], ProposedIssue());
    assert Kept(keys, Some(["status/done"]), [ProposedIssue()]) == [];
    DisplayIsValid();
    FilteredTableOutput(Display, Some(["status/done"]), [ProposedIssue()], []);
  }

  /**
    As written, `--status done` does not filter: an open issue labelled
    `status/proposed` still gets a row, where the filtered table has none.
   */
  lemma StatusOptionIgnored(text: string)
    ensures Inject(text, Some(["done"]), [ProposedIssue()], []) == Inject(text, None, [ProposedIssue()], [])
    ensures var rendered := RenderRfcTable.RenderedTable(Display, [ProposedIssue()], []);
      var filtered := FilteredTable(Display, NormalizeStatuses(Some(["done"])), [ProposedIssue()], []);
      rendered.Success? && |rendered.value| == 3 &&
      filtered.Success? && |filtered.value| == 2
  {
    DoneFilter();
    ProposedIssueRendered();
    ProposedIssueFiltered();
  }
}

# rfc-render in Dafny

A model of the table tooling in `tools/rfc-render` of the AWS CDK RFCs
repository. The tooling reads the repository's GitHub issues and sorts each
one under a status label such as `status/planning`. From those it renders a
Markdown table of the RFCs, and splices that table into the README between
`<!--BEGIN_TABLE-->` and `<!--END_TABLE-->`.

The modules follow the scripts:

- `StatusRegistry` (status_registry.dfy) covers two registries and the
  classifier that picks an issue's status:
  - `STATUS_LIST` of status.js;
  - the `display` registry of render-rfc-table.js.
- `Issues` (issues.dfy) covers the per-issue work that render-rfc-table.js
  and fetch-issues.js each define, modelled once (see "## Left out" for how
  the two copies differ):
  - `findMetadata`, which reads the PR number and champion from the
    `|PR|Champion|` table in the issue body;
  - `findDocFile`, which finds the design document whose leading number is
    the issue number;
  - the choice of link;
  - the record built for each issue;
  - the rule for which issues get a record.
- `RenderRfcTable` (render_rfc_table.dfy) models `render()`, with its two
  loops as methods:
  - it pushes each kept issue's record onto the list of its status;
  - it emits one row per record, status by status in registry order,
    sorted by issue number within a status;
  - `renderUser`, `byNumber` and the row format are modelled too.
- `FetchIssues` (fetch_issues.dfy) models `issuesGroupedByStatus`: the
  search query, the status filter, and grouping in first-encounter order
  with `??=`.
- `InjectTable` (inject_table.dfy) models inject-table.js in three parts:
  - `--status` normalisation;
  - the marker splice on the README's lines;
  - the whole text transformation.
- `Strings` and `Wrappers` are support modules. `Strings` holds the
  JavaScript string built-ins the scripts use. `Wrappers` holds Option and
  Result, which stand for `undefined` and for a thrown error.

The network, the file system and the environment are parameters:
- the issue list the API would return is passed in as `seq<Issue>`;
- the directory listing of `text/` is passed in as `seq<string>`;
- the README text is passed in, and the new text comes back.

A JavaScript `throw` inside an async function becomes a `Failure`, and so
does any TypeError that the code would raise.

Where the code and the documentation of the tool disagree, the model follows
the code:
- `findMetadata` does not fail soft. It throws a TypeError when the header
  line has no line two below it, or when that line has no `|`. Both are
  `MetadataError` values.
- The PR number stays a string. It is empty when the cell does not start
  with `#`.
- The unknown sentinel is itself a registry key. As a result, an issue
  whose only status label is `status/unknown` is classified as that status,
  and closed ones are dropped.
- `render()` takes no parameters. The status filter that inject-table.js
  passes it is dropped: see "## Findings".

## Model

| member | source | states |
|---|---|---|
| StatusRegistry.DisplayOf | tools/rfc-render/render-rfc-table.js:106 | the cell text is the registry's text for a registered status, and the empty string (`undefined` joined) for anything else |
| StatusRegistry.UnknownIsRegistered | tools/rfc-render/status.js:5-6 | the unknown sentinel is a key of both `STATUS_LIST` and `display` |
| StatusRegistry.RegistriesAgreeOnKeys | tools/rfc-render/render-rfc-table.js:12-24 | `display` and `STATUS_LIST` have the same keys in the same order; every other entry is equal too, and the stale entry's text differs |
| StatusRegistry.RegistryKeysDistinct | tools/rfc-render/status.js:5-17 | the registry has eleven distinct keys |
| StatusRegistry.RegistryKeysPrefixed | tools/rfc-render/status.js:5-17 | every key is a `status/` label |
| StatusRegistry.DisplayIsValid | tools/rfc-render/render-rfc-table.js:12-27 | `display` has distinct keys that include the sentinel |
| StatusRegistry.StatusListIsValid | tools/rfc-render/status.js:1-17 | `STATUS_LIST` has distinct keys that include the sentinel |
| StatusRegistry.Matches | tools/rfc-render/render-rfc-table.js:157-162 | the collected labels are exactly the issue's label names that are registry keys, and there are no more of them than labels |
| StatusRegistry.DetermineStatus | tools/rfc-render/render-rfc-table.js:156-169 | the loop collects the matching labels, then answers the single match or the sentinel, which is the classifier `StatusOf` |
| StatusRegistry.StatusOfIsKey | tools/rfc-render/render-rfc-table.js:164-168 | with the sentinel registered, the status is always a registry key, so `issueByStatus[status]` exists |
| StatusRegistry.NoMatchIsUnknown | tools/rfc-render/render-rfc-table.js:164-165 | no status label: the sentinel |
| StatusRegistry.SingleMatchIsStatus | tools/rfc-render/render-rfc-table.js:166-167 | exactly one label position holding a status label: that label |
| StatusRegistry.AmbiguousIsUnknown | tools/rfc-render/render-rfc-table.js:164-165 | two label positions holding status labels (different or repeated): the sentinel |
| Issues.HeaderIndex | tools/rfc-render/render-rfc-table.js:144 | `findIndex`: no line starts with the header, or the first one that does |
| Issues.MetadataWithoutHeader | tools/rfc-render/render-rfc-table.js:145-147 | a body with no header line gives an empty champion and no PR number |
| Issues.MetadataOfAbsentBody | tools/rfc-render/render-rfc-table.js:142 | a missing body reads as the empty text: empty champion, no PR number |
| Issues.MetadataFromLines | tools/rfc-render/render-rfc-table.js:143-149 | the first header line decides; the line two below it is parsed, and a missing line is a thrown error |
| Issues.RowWithoutBarFails | tools/rfc-render/render-rfc-table.js:149-152 | a data row without a bar character leaves `pr` undefined and throws |
| Issues.DataRowCells | tools/rfc-render/render-rfc-table.js:149-153 | for any row of two or more cells, the champion is the trimmed third cell, or empty when there is none; the PR number is what follows a leading `#` of the untrimmed second cell, trimmed, else empty |
| Issues.DocIndex | tools/rfc-render/render-rfc-table.js:138 | no file's number prefix parses to the issue number, or the first file whose does |
| Issues.FindDocFile | tools/rfc-render/render-rfc-table.js:137-139 | `find`: `undefined` exactly when no file matches, otherwise the first matching file in listing order |
| Issues.MatchedDocIsNonEmpty | tools/rfc-render/render-rfc-table.js:77 | a matched document name is never empty, so `if (doc)` takes it |
| Issues.PaddedDocMatches | tools/rfc-render/render-rfc-table.js:138 | a zero-padded name `0042-x.md` matches issue 42 |
| Issues.LinkPriority | tools/rfc-render/render-rfc-table.js:74-83 | the link is the document if one matched, else the PR if its number is non-empty, else the issue, whose number reads back from the link |
| Issues.RecordOfIssue | tools/rfc-render/render-rfc-table.js:85-94 | a record carries the issue's number, title, assignee, its status, its matched document and the champion read from the body; it links the document when there is one, and otherwise the link chosen from the PR number in the body |
| Issues.RecordsOfSpec | tools/rfc-render/render-rfc-table.js:53-95 | building the records fails exactly when some issue's metadata throws; otherwise one record per issue, in order |
| Issues.RecordsOfSnoc | tools/rfc-render/render-rfc-table.js:71-94 | one more issue appends its record or makes its error the outcome |
| Issues.RecordsOfFailureSticks | tools/rfc-render/render-rfc-table.js:71 | after a throw, later issues change nothing |
| Issues.KeptIsFilter | tools/rfc-render/render-rfc-table.js:53-69 | every issue that passes the skips is kept once per occurrence, every other one is dropped |
| Issues.KeptMember | tools/rfc-render/fetch-issues.js:29-43 | a kept issue is an issue of the input that is not a pull request, passes the filter and is not closed with unknown status |
| Issues.KeptSnoc | tools/rfc-render/fetch-issues.js:29-43 | one more issue is appended when it passes the skips and dropped otherwise |
| Issues.KeptAppend | tools/rfc-render/fetch-issues.js:29 | the issues kept from two runs of results are those kept from each, in order |
| Issues.InGroup | tools/rfc-render/render-rfc-table.js:85 | the list under a status holds only records of that status |
| Issues.InGroupSnoc | tools/rfc-render/render-rfc-table.js:85 | pushing a record extends the list of its own status and no other |
| Issues.InGroupIsFilter | tools/rfc-render/render-rfc-table.js:85-94 | the list under a status holds every record of that status once per occurrence and nothing else |
| RenderRfcTable.RenderUserCases | tools/rfc-render/render-rfc-table.js:120-135 | the owner cell is empty exactly when no handle is left after removing one `@` and trimming; otherwise it links that handle, which has no outer white space |
| RenderRfcTable.RenderUserStripsOneAt | tools/rfc-render/render-rfc-table.js:125-127 | one leading `@` is ignored: `@alice` and `alice` give the same cell |
| RenderRfcTable.HandleKeepsSecondAt | tools/rfc-render/render-rfc-table.js:125-129 | only one `@` is removed: for a handle that does not start with white space, `@@alice` keeps the second |
| RenderRfcTable.InsertByNumber | tools/rfc-render/render-rfc-table.js:116-118 | inserting a record adds exactly that record |
| RenderRfcTable.InsertKeepsSorted | tools/rfc-render/render-rfc-table.js:116-118 | inserting into a list sorted by `byNumber` keeps it sorted |
| RenderRfcTable.SortByNumber | tools/rfc-render/render-rfc-table.js:101 | `sort(byNumber)` returns a permutation of the list in ascending issue number |
| RenderRfcTable.Grouped | tools/rfc-render/render-rfc-table.js:100-101 | the listed records all carry one of the listed statuses |
| RenderRfcTable.GroupedIsPermutation | tools/rfc-render/render-rfc-table.js:100-111 | the rows list every record whose status is listed once per occurrence, and no other record |
| RenderRfcTable.GroupedIsOrdered | tools/rfc-render/render-rfc-table.js:100-101 | the rows come status by status in registry order, by ascending number within a status |
| RenderRfcTable.RowHasFourColumns | tools/rfc-render/render-rfc-table.js:102-109 | a row whose cells hold no bar character splits back into four columns: title linked to the record's link, and the registry text of its status |
| RenderRfcTable.Rows | tools/rfc-render/render-rfc-table.js:101-110 | one row per record, the i-th row formatted from the i-th record |
| RenderRfcTable.RowsAppend | tools/rfc-render/render-rfc-table.js:100-111 | the rows of two runs of records are the rows of each, in order |
| RenderRfcTable.RenderOutput | tools/rfc-render/render-rfc-table.js:31-114 | a successful render is the header, the separator and one row per kept issue, listing the kept records once each, status by status in registry order, ascending by number |
| RenderRfcTable.RecordsListed | tools/rfc-render/render-rfc-table.js:59-85 | every record built carries a registry key, so it lands in one of the lists |
| RenderRfcTable.GroupedKeepsAll | tools/rfc-render/render-rfc-table.js:100-101 | when every status is listed, walking the lists loses and adds no record |
| RenderRfcTable.RowsComeFromKeptIssues | tools/rfc-render/render-rfc-table.js:53-94 | every row belongs to an input issue that is neither a pull request nor closed with unknown status, with its number and status |
| RenderRfcTable.RenderFails | tools/rfc-render/render-rfc-table.js:71 | the render rejects exactly when the metadata of some kept issue throws |
| RenderRfcTable.Render | tools/rfc-render/render-rfc-table.js:31-114 | `render()` returns the table `RenderedTable` over `display` |
| RenderRfcTable.RenderOver | tools/rfc-render/render-rfc-table.js:39-113 | the body of `render()` returns `RenderedTable` for any registry with distinct keys that include the sentinel |
| RenderRfcTable.Groups | tools/rfc-render/render-rfc-table.js:39-43 | `issueByStatus` has exactly the registry keys |
| RenderRfcTable.GroupsSnoc | tools/rfc-render/render-rfc-table.js:85 | pushing a record changes only the list of its status, by appending it |
| RenderRfcTable.EmptyGroups | tools/rfc-render/render-rfc-table.js:39-43 | the initial object maps every registry key to an empty list |
| RenderRfcTable.PushOne | tools/rfc-render/render-rfc-table.js:54-94 | one loop iteration skips a pull request or a closed unknown issue, throws on bad metadata, otherwise pushes the record onto its status list |
| RenderRfcTable.StepPreserves | tools/rfc-render/render-rfc-table.js:53-95 | each iteration keeps the lists equal to the grouping of the records of the issues kept so far, or fails as building all records does |
| RenderRfcTable.PushIssues | tools/rfc-render/render-rfc-table.js:53-95 | the loop leaves each list holding the records of that status in encounter order, or rejects with the first metadata error |
| RenderRfcTable.EmitRows | tools/rfc-render/render-rfc-table.js:97-111 | the emitted lines are the header, the separator and the rows of the lists in registry order, each sorted by number |
| RenderRfcTable.EmitGroup | tools/rfc-render/render-rfc-table.js:101-110 | the inner loop appends one row per record of the sorted list, in order, after the lines already emitted |
| FetchIssues.Query | tools/rfc-render/fetch-issues.js:19-21 | the query always starts with the repository and `is:issue`, and has nothing after it exactly when there is no filter |
| FetchIssues.QueryLabels | tools/rfc-render/fetch-issues.js:20 | the filter's labels read back from the query's `label:` part |
| FetchIssues.GroupByEncounterSpec | tools/rfc-render/fetch-issues.js:59-67 | `??=` creates each status key once, exactly for the statuses met, and the list under it holds that status's records in encounter order |
| FetchIssues.ListsAreNonEmpty | tools/rfc-render/fetch-issues.js:59 | a key exists only if a record was pushed under it |
| FetchIssues.KeysInEncounterOrder | tools/rfc-render/fetch-issues.js:59 | the keys are in the order their statuses are first met |
| FetchIssues.PushOne | tools/rfc-render/fetch-issues.js:30-67 | one loop iteration skips a pull request, an unrequested status or a closed unknown issue, throws on bad metadata, otherwise pushes with `??=` |
| FetchIssues.StepPreserves | tools/rfc-render/fetch-issues.js:29-68 | each iteration keeps the object equal to the first-encounter grouping of the records so far, or fails as building all records does |
| FetchIssues.IssuesGroupedByStatus | tools/rfc-render/fetch-issues.js:10-71 | the function resolves to the first-encounter grouping of the kept issues' records, or rejects with the first metadata error |
| FetchIssues.ResultRecordsAreSelected | tools/rfc-render/fetch-issues.js:29-67 | every record sits under its own status, which the filter requests, and comes from an input issue that is not a pull request nor closed with unknown status |
| FetchIssues.EmptyFilterQuery | tools/rfc-render/fetch-issues.js:20 | an empty filter array is truthy, so the query ends in an empty `label:` part |
| FetchIssues.EmptyFilterKeepsNothing | tools/rfc-render/fetch-issues.js:37 | an empty filter array is truthy and requests nothing: the result is empty |
| FetchIssues.SameClassifierAsTable | tools/rfc-render/fetch-issues.js:93-106 | the classifier over `STATUS_LIST` agrees with the one over `display` and answers a registry key |
| InjectTable.NormalizeStatus | tools/rfc-render/inject-table.js:22 | the value always starts with `status/`; a prefixed value is unchanged, any other is the value behind the prefix |
| InjectTable.NormalizeIdempotent | tools/rfc-render/inject-table.js:22 | normalising twice is normalising once |
| InjectTable.NormalizeStatuses | tools/rfc-render/inject-table.js:22 | `?.map`: absent stays absent; otherwise the same number of values, each the normalised value at its position, all prefixed |
| InjectTable.NormalizeStatusesIdempotent | tools/rfc-render/inject-table.js:22 | normalising the list twice is normalising it once |
| InjectTable.Splice | tools/rfc-render/inject-table.js:29-36 | the splice fails with the marker error exactly when a marker line is missing |
| InjectTable.SpliceShape | tools/rfc-render/inject-table.js:36 | the result keeps the lines up to and including the first begin marker, then the table, then the lines from the first end marker on, and has that total length |
| InjectTable.SpliceIdempotent | tools/rfc-render/inject-table.js:29-36 | with the begin marker first and no marker in the table, splicing the same table again changes nothing |
| InjectTable.InjectText | tools/rfc-render/inject-table.js:26-39 | the text transformation fails exactly when a marker is not a line of the text |
| InjectTable.InjectTextOuterLines | tools/rfc-render/inject-table.js:26-39 | for any table, the new text splits into the lines up to the begin marker unchanged, the table's lines as they read back, and the lines from the end marker on unchanged |
| InjectTable.InjectTextLines | tools/rfc-render/inject-table.js:26-39 | with no line feed in the table, the new text splits back into exactly the spliced lines |
| InjectTable.InjectTextIdempotent | tools/rfc-render/inject-table.js:26-39 | injecting the same table into the new text gives the same text |
| InjectTable.InjectOutcome | tools/rfc-render/inject-table.js:29-39 | a missing marker is reported whatever the issues, before rendering; otherwise the render's error, or the table spliced into the text |
| InjectTable.RecordsPassFilter | tools/rfc-render/fetch-issues.js:37-39 | every record built under a filter has a requested status |
| InjectTable.Deduplicated | tools/rfc-render/inject-table.js:36 | corrected: the order of the filtered table takes each requested status once, at its first request, and keeps a list without repeats as it is |
| InjectTable.FilteredTableOutput | tools/rfc-render/inject-table.js:36 | corrected: the table honouring the filter lists every record kept under it once, status by status in the filter's order with repeats dropped, by ascending number, and no unrequested status |
| InjectTable.StatusOptionIgnored | tools/rfc-render/inject-table.js:36 | as written, `--status done` leaves the text unchanged, and an open `status/proposed` issue still gets a row that the filtered table does not have |

## Left out

- Fetching the issues with Octokit is not modelled: authentication with `GITHUB_TOKEN`, the request, `paginate`, and network failures. The issue list the API returns is a parameter.
- Reading the `text/` directory and reading and writing the README are not modelled. Their contents are parameters and results. A failed read or write is not modelled.
- The command line of inject-table.js is not modelled: `parseArgs`, the default `README.md`, resolving the path, the logging, the usage message and the exit code. `Inject` starts from the parsed `--status` values.
- The `await` points and the async control flow are left out. The scripts are sequential, so only the order of effects matters, and the model keeps that order.
- The module-format mismatch is not modelled: status.js uses `export` while fetch-issues.js loads it with `require`. The model just uses `STATUS_LIST`.
- Issue fields the scripts never read are left out, as is the `warning: ''` field of render-rfc-table.js's records, which is never read.
- Strings are sequences of Unicode scalar values, not UTF-16 code units. Emoji in the registries are opaque constants, and `substring(1)` and `trim` act on characters.
- `Strings.ParseLeadingInt`: models `parseInt` only for the digits at the start of the text. Leading white space, a sign and `0x` prefixes, which `parseInt` also accepts, are not modelled. Directory entries that start that way would match differently.
- `RenderRfcTable.SortByNumber`: `issues.sort(byNumber)` sorts the array in place. The model sorts a value and discards it after emitting the rows, which is all the script uses. The order of records with equal numbers is not stated, since issue numbers are unique.
- `RenderRfcTable.RenderOver`: the body of `render()` is modelled over any valid registry. `Render` applies it to `display`.
- `Issues.Issue`: `assignee` is the login, or absent when the API returns `null`. The checks `issue.assignee && issue.assignee.login` are folded into that.
- The record building in `Issues.RecordsOf` is shared by both scripts. The two copies of `findMetadata` and `findDocFile` are textually identical. The two copies of `determineStatus` differ only in the list of status labels they consult: `labels`, the keys of `display` (render-rfc-table.js:27, 159), and `STATUS_LABELS`, the keys of `STATUS_LIST` (fetch-issues.js:8, 96). The model passes that list as the `keys` parameter, and `FetchIssues.SameClassifierAsTable` proves that both lists give the same status.

## Findings

| source | as written | input that shows it | evidently intended | confidence | as-written member | corrected member |
|---|---|---|---|---|---|---|
| tools/rfc-render/inject-table.js:36 | the normalised `--status` list is passed to `render`, which declares no parameters (render-rfc-table.js:31), so the option is logged and then dropped | `--status done`, with one open issue labelled `status/proposed` and no body: the table still has a row for it | only issues whose status was requested are tabled, their lists in the requested order | not executed; high that the option has no effect, medium on the intended order | InjectTable.StatusOptionIgnored | InjectTable.FilteredTableOutput |

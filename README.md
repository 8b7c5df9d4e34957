# jira.reports — sprint velocity and effort aggregation in Dafny

This project models the report logic of the `jira.reports` command-line tool.
The tool fetches the most recent sprints of a board and one sprint report per sprint.
From those it derives two tables, each written as a CSV file:

- the **velocity** table: per sprint, the committed estimate and the completed estimate;
- the **effort breakdown** table: one row per completed issue, with the sprint, the issue type and the estimate.

The model has five modules:

- `Interfaces` (`interfaces.dfy`): the report records, reduced to the fields the aggregation reads.
- `Reports` (`reports.dfy`): `commitment` under both counting policies, and the velocity and effort tables.
- `Utilities` (`utilities.dfy`): `convertToCSV`, with `Split` as the reader's inverse of `Join`.
- `Selection` (`selection.dfy`): the sprint choice. The sprint list is sorted in place by descending id (insertion sort on an `array`). The first `s` are sliced into a fresh array, which is reversed in place.
- `Driver` (`driver.dfy`): the report loop of `main` and the whole run, ending in the CSV text of each file.

Numbers are exact `real`s. An estimate is `Option<real>`, and `value || 0` becomes `EstimateOrZero`.
`issueKeysAddedDuringSprint` is a `map<string, bool>`. An issue counts as added only when its key maps to `true`.
The source tests that the value is truthy (index.ts:88), so a key listed with `false` still counts toward the commitment.

Two collaborators are parameters:

- `fetch(boardId, sprintId)` stands for the sprint-report request. It returns `None` where the request returns `null`.
- `render` stands for JavaScript's number-to-text conversion.

`convertToCSV` reads `arr[0]`, so it requires a non-empty array.
The driver models what happens when that array is empty.
With no report at all, the velocity conversion throws, and nothing is written.
With reports but no completed issue, the velocity text is produced and the effort conversion throws.
In the model, `None` marks a conversion that threw.

## Model

| member | source | states |
|---|---|---|
| `Reports.ExcludeAdded` | index.ts:85-90 | keeps exactly the pairs whose key does not map to `true` in the added-keys map, never more pairs than it was given; keeps everything when no key maps to `true` |
| `Reports.ExcludeAddedCounts` | index.ts:85-90 | each pair whose key does not map to `true` is kept as often as it occurs; a pair whose key does is never kept |
| `Reports.ExcludeAddedAppend` | index.ts:85-90 | the filter distributes over concatenation, so the kept pairs stay in their original order |
| `Reports.CommitmentCountAll` | index.ts:57-94 | with `countAll`, the commitment is the sum of every completed, punted and not-completed estimate, a missing estimate counting 0 |
| `Reports.CommitmentDefault` | index.ts:57-94 | by default, the commitment is the sum over the three categories of the estimates of issues whose key does not map to `true` |
| `Reports.NothingAddedMeansCountAll` | index.ts:85-90 | when no key of the added-keys map maps to `true`, both policies give the same commitment |
| `Reports.DefaultAtMostCountAll` | index.ts:85-94 | with non-negative estimates, the default commitment is at most the count-all commitment |
| `Reports.MissingEstimateAddsNothing` | index.ts:59-82 | appending an issue with no estimate (or an explicit 0) to any category leaves the commitment unchanged under either policy |
| `Reports.ExampleDefaultPolicy` | index.ts:57-95 | completed A=3, punted B=2, not-completed C=5 with C added: default commitment 5 |
| `Reports.ExampleCountAll` | index.ts:57-95 | the same report: count-all commitment 10 |
| `Reports.ExampleVelocity` | index.ts:98-104 | the same report's velocity row: committed 5 (or 10 counting all), completed 3 |
| `Reports.VelocityTable` | index.ts:98-104 | one row per report in input order: the sprint name, the commitment, and the report's own completed-estimate sum taken as is |
| `Reports.VelocityTableAppend` | index.ts:98-104 | the table of concatenated report lists is the concatenation of their tables: no re-sorting |
| `Reports.EffortTable` | index.ts:114-132 | the table has exactly as many rows as there are completed issues across the reports |
| `Reports.EffortTableAppend` | index.ts:124-132 | the flattening distributes over concatenation of the report list |
| `Reports.EffortTableAt` | index.ts:114-132 | row `CompletedCount(reports[..i]) + j` is issue `j` of report `i`: sprint name, type name, estimate or 0 |
| `Reports.EffortTableIgnoresOtherIssues` | index.ts:114-123 | reports agreeing on sprint names and completed issues give the same table, whatever their punted and not-completed issues |
| `Utilities.ConvertToCSV` | src/utilities.ts:4-12 | needs a non-empty array; the output starts with the first record's field names joined by `,`; if nothing printed holds a newline, it reads back as one line more than there are records: header, then record `i`'s values joined by `,` on line `i+1`; and it has exactly one newline per record |
| `Utilities.SplitJoin` | src/utilities.ts:11 | splitting the `join` of parts free of the separator gives back the parts |
| `Utilities.FieldsRecoverable` | src/utilities.ts:8-10 | with no `,` or newline anywhere, each line splits back into its record's values, in the record's field order |
| `Utilities.CommaIsNotEscaped` | src/utilities.ts:9 | a value `x,y` is printed raw, so a one-field record's line reads back as the two fields `x` and `y` |
| `Selection.SortByIdDesc` | index.ts:154 | sorts the array in place by descending id and keeps its elements (a permutation) |
| `Selection.ReverseInPlace` | index.ts:156 | the array afterwards is its old contents reversed |
| `Selection.SliceReversed` | index.ts:155-156 | a fresh array holding the first `SliceEnd(n, s)` sprints in reverse order |
| `Selection.SelectSprints` | index.ts:153-156 | the sprint list is left sorted by descending id (a permutation of the old list), and the result is its sliced prefix reversed |
| `Selection.SortedIsUnique` | index.ts:154 | with distinct ids, only one ordering of given sprints is sorted by descending id: the choice does not depend on the sort algorithm |
| `Selection.SelectionIsNewestInOrder` | index.ts:153-156 | for distinct ids: `min(s, n)` sprints for `s >= 0`, all but the `-s` oldest for negative `s` (none at all when `-s >= n`); all from the list, strictly ascending by id, each newer than every sprint left out |
| `Selection.ExampleSelection` | index.ts:153-156 | ids 10, 7, 9, 5, 3 with `s = 3` give the sprints 7, 9, 10 in that order |
| `Driver.FetchReports` | index.ts:159-177 | either every sprint's report, pushed in sprint order, or the position of the first sprint whose report is `null`, with every earlier report present |
| `Driver.VelocityCsv` | index.ts:97-105 | text exists exactly when there is a report; it starts with `sprint,committed,completed` |
| `Driver.EffortCsv` | index.ts:113-134 | text exists exactly when some report has a completed issue; it starts with `sprint,type,estimate` |
| `Driver.VelocityCsvLines` | index.ts:97-105 | the velocity text reads back as the header and one `name,committed,completed` line per report, in order |
| `Driver.EffortCsvLines` | index.ts:113-134 | the effort text reads back as the header and one `name,type,estimate` line per completed issue, report after report |
| `Driver.Run` | index.ts:142-183 | a `null` sprint list ends the run with nothing written; otherwise the list is left sorted; a `null` report ends the run naming the first such sprint, with nothing written; else the written text is that of the tables of all fetched reports in sprint order |

## Left out

- HTTP requests (src/requests.ts), the environment variables and cookies they read, and the board URL: replaced by the `fetch` parameter, keyed by board and sprint id.
- Command-line parsing with yargs and dotenv (index.ts:14-55): `s` and `countAll` are parameters. The default of 5 sprints is not modelled. A non-integer or non-numeric `--sprints` is not modelled either, since `s` is an `int`.
- File writing, the `debug.json` dump and `JSON.stringify` (index.ts:105-110, 134-139, 185-191): a run ends with the text each file would receive. Errors that `writeFile` reports asynchronously are not modelled.
- Console output: `log`, chalk and `handleError` (src/utilities.ts:14-43). An error surfaces as the outcome of the run.
- `async`/`await`: the loop is modelled as sequential. Nothing runs concurrently.
- IEEE floating point and number formatting: sums are exact reals, and `render` stands for number-to-text conversion. `value || 0` also maps `NaN` to 0; `NaN` is not modelled.
- JavaScript property lookup walks the prototype chain. For a key such as `constructor`, `issueKeysAddedDuringSprint[key]` is truthy even when the key is not listed. The model looks up listed keys only; issue keys of the form `PROJ-123` never hit this.
- `Selection.SortByIdDesc`: states only that the result is a sorted permutation. It does not state the stability that `Array.prototype.sort` guarantees for equal ids. `Selection.SortedIsUnique` shows that the order is fully determined when ids are distinct.
- `Selection.SelectionIsNewestInOrder`: stated for distinct ids only; with repeated ids the sprints taken need not be strictly ascending.
- The record fields the aggregation never reads: avatars, epics, status, dates, initial-estimate sums and `issuesCompletedInAnotherSprint`.

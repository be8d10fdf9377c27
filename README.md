# Bugs pivot report of jira_report.py

`jira_report.py` queries an issue tracker, writes one spreadsheet row per
issue (key, summary, components, labels, resolution), and then builds the
"Bugs" pivot sheet with `ngpbugs`. This project models that path in Dafny:

* flattening an issue into its row, and collecting the resolutions seen
  (`Records`);
* the fixed resolution vocabulary and its three buckets, Unresolved,
  Resolved and Consulted (`Vocabulary`);
* Python's remove-while-iterating loop, which skips the element after each
  removed one (`RemovePass`);
* pruning the bucket legend to the observed resolutions with three such
  sweeps (`Legend`);
* the component × resolution count table with "All" margins that
  `pandas.pivot_table` builds (`Pivot`);
* replacing each bucket's raw columns by their sum and reversing the column
  order (`Columns`);
* the team relabelling rules (string patterns with lookaheads) and the
  merging of equally labelled rows with `groupby(sort=False).sum()` (`Rows`);
* pruning the fixed row legend, reindexing, and the whole report as written
  and as evidently intended (`Report`).

A table is column-oriented: `Frame(index, columns)`, where every column has a
name and one natural-number count per row label. Failures are values:
`Err(EmptyPivot)` when the query returned nothing countable (the source
prints a message and exits), `Err(MissingColumn(name))` when a column that
is summed or dropped does not exist (pandas raises KeyError), and
`Err(DuplicateLabels)` when the table to reindex repeats a row label (pandas
refuses).

The loops the source writes out become methods proved against the
functions that define their outcome:

* `RemovePass.RemoveWhileIterating` for the remove-while-iterating loop;
* `Legend.ResolutionLegendTable.PruneAbsent` for the three rounds over the
  mutable legend;
* `Rows.MergeSeCore` for the loop over the SE core list;
* `Report.RunNgpBugs` for the whole function, step by step.

Where the description of the system and the code disagree, the model follows
the code. The final column order is Consulted, Resolved, Unresolved, All,
followed by the raw resolution columns that no bucket took, in descending
order. The description instead gives Unresolved, Resolved, Consulted, All.
The reversal at `jira_report.py:137` produces the code's order.

## Model

| member | source | states |
|---|---|---|
| Records.Flatten | jira_report.py:245-256 | key and summary are copied; a single component or label is written as it is; the component cell is empty exactly when the issue has no component names (or one empty one); "Not resolved" when there is no resolution, otherwise the resolution's name |
| Records.FlattenSplitsBack | jira_report.py:245-248 | when no name holds a comma, cutting the Component/s and Labels cells at ", " gives back exactly the issue's component names and labels |
| Records.FlattenAll | jira_report.py:244-257 | one row per issue, in query order |
| Records.Resolutions | jira_report.py:254 | the resolution of every row, in row order |
| Records.ObservedResolutions | jira_report.py:263 | each resolution seen, once; a name is present exactly when some row has that resolution |
| Vocabulary.BucketsPartitionVocabulary | jira_report.py:79-105 | the three buckets are pairwise disjoint and together are exactly the fourteen-name vocabulary; Rejected and Incomplete are in none |
| Vocabulary.LegendWellFormed | jira_report.py:79-105 | no list repeats a name, each bucket has at most seven members, and no bucket name is a raw resolution |
| Vocabulary.BucketNames | jira_report.py:83-105 | the buckets are named Unresolved, Resolved and Consulted, in that order, and "All" is no raw resolution |
| Legend.ForDeletion | jira_report.py:81 | a name is to be deleted exactly when it is in the vocabulary and was not observed |
| Legend.PrunedLegend | jira_report.py:109-113 | the pruned legend keeps the three buckets and their names, in order |
| Legend.PrunedLegendIsFilter | jira_report.py:109-113 | after three sweeps each bucket holds exactly its observed members, in declaration order |
| Legend.ResolutionLegendTable.PruneAbsent | jira_report.py:109-113 | the in-place rounds leave each bucket's member list as three sweeps of the old one, bucket names unchanged |
| Legend.PruneForRun | jira_report.py:81-113 | the pruned legend equals Legend.PrunedLegend of the observed resolutions, and each bucket is its members filtered to the observed resolutions |
| RemovePass.SkipPass | jira_report.py:111-113 | one sweep never makes the list longer; what it keeps and skips is stated by the lemmas below |
| RemovePass.Sweeps | jira_report.py:109-113 | repeated sweeps of a list without repeats leave a list without repeats |
| RemovePass.RemoveWhileIterating | jira_report.py:111-113 | the list-and-iterator loop leaves exactly what one sweep specifies |
| RemovePass.SkipPassSubsequence | jira_report.py:111-113 | a sweep only drops elements: it never adds or reorders |
| RemovePass.SkipPassKeepsSurvivors | jira_report.py:111-113 | every element that is not to be removed survives a sweep, in order |
| RemovePass.SkipPassHalvesDoomed | jira_report.py:111-113 | a sweep leaves at most half (rounded down) of the elements to remove |
| RemovePass.SkipPassSkipsNext | jira_report.py:111-113 | the element right after a removed one is never examined and survives the sweep |
| RemovePass.SweepsLeaveFewDoomed | jira_report.py:109-113 | after n sweeps fewer than k of the elements to remove remain when there were fewer than k·2^n, and the others are untouched |
| RemovePass.ThreeSweepsSuffice | jira_report.py:109-113 | three sweeps remove every doomed element of a list that holds at most seven of them |
| RemovePass.ThreeSweepsFailForEight | jira_report.py:109-113 | for any list of eight elements, all to be removed, three sweeps leave its last element, although filtering would leave nothing |
| Pivot.Countable | jira_report.py:124 | the pivot counts exactly the rows that have a component |
| Pivot.CountableKeepsMultiplicity | jira_report.py:124 | each row with a component is counted as often as it occurs, and every row without one is dropped |
| Pivot.BuildPivot | jira_report.py:117-123 | building the pivot fails only with the empty-query error, and otherwise gives a well-formed table; labels, cells and margins are stated by the lemmas below |
| Pivot.PivotFailsIffNoComponent | jira_report.py:117-123 | building the pivot fails exactly when no row has a component |
| Pivot.ComponentlessIgnored | jira_report.py:124 | adding a row without a component leaves the pivot unchanged |
| Pivot.PivotShape | jira_report.py:119 | row labels are the sorted distinct components followed by "All", column names the sorted distinct resolutions followed by "All", both drawn exactly from the rows with a component |
| Pivot.PivotMargins | jira_report.py:119 | every column's "All" cell sums its component rows, every row's "All" cell sums its resolution cells, and the grand total is the number of counted rows, each row with a component counted as often as it occurs |
| Columns.GetColumn | jira_report.py:128-131 | reading a column fails with its name exactly when no column has it, otherwise gives that column's values |
| Columns.Lookup | jira_report.py:128-132 | the position of the first column with that name, or none exactly when no column has it |
| Columns.SetColumn | jira_report.py:131-134 | assigning a column keeps the row labels; a name not yet present is appended after the existing columns, and an existing name has its first column overwritten in place, every other column and all column names unchanged |
| Columns.DropColumns | jira_report.py:132 | dropping fails exactly when some name is not a column, then with one of the missing names; otherwise it removes exactly the named columns and keeps the order of the rest |
| Columns.SumColumns | jira_report.py:128-131 | the summed column has one cell per row label; when it fails and what each cell holds is stated by Columns.SumColumnsCells |
| Columns.GroupBucket | jira_report.py:125-134 | one bucket step keeps the row labels and a well-formed table |
| Columns.PivotTable.Assign | jira_report.py:131-134 | the in-place assignment leaves the table equal to Columns.SetColumn of the old one |
| Columns.PivotTable.Drop | jira_report.py:132 | the in-place drop leaves the table equal to Columns.DropColumns of the old one, or returns its error and leaves the table unchanged |
| Columns.PivotTable.GroupColumns | jira_report.py:125-134 | the in-place bucket loop leaves the table equal to Columns.GroupAll of the old one, or returns the error GroupAll gives |
| Columns.SumColumnsCells | jira_report.py:128-131 | the sum succeeds exactly when every named column exists, and then each cell is the sum of that row's cells in the named columns |
| Columns.GroupAll | jira_report.py:125-134 | grouping keeps the row labels and a well-formed table |
| Columns.GroupAllShape | jira_report.py:125-134 | after grouping: the columns outside the buckets in their old order, then one column per bucket in legend order holding the sum of its members (zeros for an empty bucket) |
| Columns.ReverseColumns | jira_report.py:137 | reversing keeps the row labels and a well-formed table |
| Columns.ReverseColumnsPermutes | jira_report.py:137 | reversal gives the same columns in exactly the opposite order: a permutation |
| Rows.Relabel | jira_report.py:140-156 | a label is either kept whole or replaced whole by the target, since the pattern spans the whole label; when it is replaced is stated by Rows.MatchesIff |
| Rows.AnchoredRelabel | jira_report.py:140-156 | the anchored rewrite likewise keeps a label whole or replaces it by the target; when is stated by Rows.AnchoredRewritesExactly |
| Rows.ClearIff | jira_report.py:140-156 | a negative lookahead holds at a position exactly when no excluded name occurs from there on |
| Rows.MatchesIff | jira_report.py:140-156 | a rule's pattern matches exactly when, at some position, both required names occur later and no excluded name does |
| Rows.RelabelRewritesClean | jira_report.py:140-156 | a label holding both names and none of the excluded ones becomes the target |
| Rows.RelabelNeedsBoth | jira_report.py:140-156 | a label missing either required name is left alone |
| Rows.RelabelSparesMargin | jira_report.py:140-156 | the "All" label is never rewritten |
| Rows.ExcludedMarkerBeforeIsIgnored | jira_report.py:140 | "MongoDB, PostgreSQL, Team1" is relabelled "PostgreSQL" although it names the excluded MongoDB |
| Rows.AnchoredRewritesExactly | jira_report.py:140-156 | with the lookaheads anchored at the start, a label is rewritten exactly when it holds both names and none of the excluded ones; the example above is left alone |
| Rows.RelabelAll | jira_report.py:140-156 | each row label is rewritten on its own |
| Rows.MergeRows | jira_report.py:140-156 | merging keeps a well-formed table with the same columns in the same order |
| Rows.MergeRowsMeaning | jira_report.py:140-156 | merging gives the distinct labels in first-appearance order, each row holding the sum of the rows of that label, and keeps column totals |
| Rows.Step | jira_report.py:140-156 | one relabel-and-merge step keeps a well-formed table and its column names |
| Rows.ApplyRules | jira_report.py:140-156 | the rules one after another keep a well-formed table and its column names |
| Rows.ApplyRulesAppend | jira_report.py:140-156 | applying two rule lists one after the other is applying their concatenation |
| Rows.MergeSeCore | jira_report.py:153-156 | the loop over the SE core list applies its eight rules in order |
| Rows.RelabelRows | jira_report.py:140-156 | the seventeen relabel-and-merge steps in source order |
| Rows.ApplyRulesKeepsMarginRow | jira_report.py:140-156 | relabelling keeps the column names and the "All" row last with the same cells, and once a rule has run the labels are unique |
| Rows.ApplyRulesKeepsMargins | jira_report.py:140-156 | both margins still add up after relabelling |
| Report.AsWrittenRowLegend | jira_report.py:164-167 | the single pass leaves at most the legend's rows, every one of them a legend row |
| Report.CorrectedRowLegend | jira_report.py:158-167 | the legend rows the table has, in legend order |
| Report.PruneRowLegend | jira_report.py:164-167 | the in-place loop leaves exactly one sweep of the row legend |
| Report.AsWrittenRowLegendKeepsPresent | jira_report.py:158-167 | the single pass keeps, in legend order, every legend row the table has, "All" included |
| Report.RowOf | jira_report.py:171 | a legend row the table has is counted with that row's cells; any other becomes a made-up empty row |
| Report.Reindex | jira_report.py:171 | reindexing fails exactly when the table repeats a row label; otherwise the rows follow the legend |
| Report.Tabulate | jira_report.py:117-156 | a successful pivot, grouping and relabelling gives a well-formed table |
| Report.NgpBugs | jira_report.py:79-171 | every row of the written report carries a label of the row legend |
| Report.NgpBugsCorrected | jira_report.py:79-171 | every row of the corrected report is a counted table row that carries a label of the row legend |
| Report.RunNgpBugs | jira_report.py:79-171 | the step-by-step run with the in-place loops computes the report as written |
| Report.EmptyQueryIffNoComponent | jira_report.py:117-123 | both reports fail with the empty-query error exactly when no issue has a component |
| Report.SinglePassFabricatesRows | jira_report.py:158-171 | with only PostgreSQL and All in the table, the pruned legend keeps five absent rows and the report makes up a row for RabbitMQ |
| Report.AsWrittenReindexFabricates | jira_report.py:158-171 | with the single pass, the made-up rows are exactly the legend rows left in that the table lacks |
| Report.CorrectedReindexCountsAll | jira_report.py:158-171 | with the corrected legend every report row is a counted table row, and every legend row the table has appears |
| Report.ComponentlessResolutionBreaksGrouping | jira_report.py:81-131 | a resolution seen only on an issue without a component stays in its bucket, and summing the bucket fails on the missing column |
| Report.CorrectedGrouped | jira_report.py:125-134 | with buckets built from the counted resolutions grouping succeeds: the other raw columns, the margin, then Unresolved, Resolved, Consulted |
| Report.CorrectedReportSucceeds | jira_report.py:79-171 | the corrected report succeeds when some issue has a component: columns Consulted, Resolved, Unresolved, All and the other raw resolutions descending, only counted rows, and the last row is "All" with the number of counted issues in its "All" cell |

## Left out

- Logging in, the query itself, reading and writing the spreadsheet files, the Excel writer, the chart and the outage sheets: these are I/O. The issues the query returns are the input.
- The regular expression at `jira_report.py:246-247` that extracts component names from the tracker's text form: the issue carries its component names already extracted.
- Missing-value spellings other than the empty cell (pandas also reads "NA", "null" and others as missing): only an empty Component/s cell is treated as missing.
- The relabelling patterns assume labels contain no line break, so `.` matches every character.
- `set` iteration order at `jira_report.py:263`: the model keeps first-appearance order, and only membership is used downstream.
- RemovePass.RemoveWhileIterating: requires the list to repeat no element. Every list the source passes is a literal without repeats, and this is proved for each.
- Report.RowOf: for a made-up row, the model records only its label, not its NaN cells.
- Report.CorrectedReportSucceeds: assumes no counted issue has the component "All" or a resolution named "All", "Unresolved", "Resolved" or "Consulted". Such names collide with the report's own margin and bucket columns.
- Report.Reindex: pandas raises on a repeated row label only when the new legend differs from the index. The model fails on any repeat. The corrected pipeline is proved never to produce a repeat.

## Findings

| source | as written | input that shows it | evidently intended | confidence | as-written member | corrected member |
|---|---|---|---|---|---|---|
| jira_report.py:164-167 | the legend rows the table lacks are removed while iterating, so a row right after a removed one is never examined | a table with rows PostgreSQL and All: the legend keeps RabbitMQ, Service-Fabrik, Authentication, BOSH and Team2, and the report gets made-up NaN rows for them | only the rows the table has, in legend order | high (not executed) | Report.AsWrittenRowLegend, Report.SinglePassFabricatesRows | Report.CorrectedRowLegend, Report.CorrectedReindexCountsAll |
| jira_report.py:119-131,263 | the bucket members come from the resolutions of all issues, but the pivot counts only issues with a component | issue B-1 under Redis, Fixed, and issue B-2 without a component, Done: "Done" stays in the Resolved bucket, the pivot has no Done column, and the sum raises KeyError | buckets built from the resolutions the pivot counts | medium (not executed) | Report.NgpBugs, Report.ComponentlessResolutionBreaksGrouping | Report.NgpBugsCorrected, Report.CorrectedReportSucceeds |
| jira_report.py:140-144 | the lookaheads follow a leading `.*`, so they may be tested at a position after an excluded name | "MongoDB, PostgreSQL, Team1" is relabelled "PostgreSQL": the match starts at position 0 and covers the whole label, but the leading `.*` can end after the first character, where `(?!.*MongoDB)` no longer sees "MongoDB" | the exclusion applied to the whole label | high (not executed) | Rows.Relabel, Rows.ExcludedMarkerBeforeIsIgnored | Rows.AnchoredRelabel, Rows.AnchoredRewritesExactly |

/** The Bugs report end to end: the pivot of the flattened issues, grouped
    into resolution buckets, reversed, relabelled by team and reindexed by the
    fixed row legend. */
module Report {
  import opened Seqs
  import opened Strings
  import opened Outcomes
  import opened Vocabulary
  import opened RemovePass
  import opened Legend
  import opened Records
  import opened Pivot
  import opened Columns
  import opened Rows

  // ---- the row legend ----

  /** `sorted_row_legend`: the rows of the report, in report order. */
  const RowLegend: seq<string> := ["PostgreSQL", "Redis", "RabbitMQ", "MongoDB", "Service-Fabrik", "Team1",
    "Authentication", "Infrastructure", "BOSH", "Runtime", "Team2", "Control Plane", "All"]

  lemma RowLegendDistinct()
    ensures Distinct(RowLegend) && RowLegend[|RowLegend| - 1] == Margin
  {
  }

  /** `rows_for_deletion`: the legend rows the table does not have. */
  function RowsForDeletion(index: seq<string>): seq<string> {
    Without(RowLegend, index)
  }

  /** The legend after the single remove-while-iterating pass of lines 164-167. */
  function AsWrittenRowLegend(index: seq<string>): (r: seq<string>)
    ensures |r| <= |RowLegend| && forall x :: x in r ==> x in RowLegend
  {
    SkipPassSubsequence(RowLegend, RowsForDeletion(index));
    SubsequenceMembers(SkipPass(RowLegend, RowsForDeletion(index)), RowLegend);
    SkipPass(RowLegend, RowsForDeletion(index))
  }

  /** The legend the pass is meant to leave: the legend rows the table has. */
  function CorrectedRowLegend(index: seq<string>): (r: seq<string>)
    ensures r == KeepOnly(RowLegend, index)
  {
    WithoutComplement(RowLegend, RowLegend, index);
    Without(RowLegend, RowsForDeletion(index))
  }

  /** Lines 164-167: one pass over the legend, removing the rows to delete. */
  method PruneRowLegend(index: seq<string>) returns (legend: seq<string>)
    ensures legend == AsWrittenRowLegend(index)
  {
    RowLegendDistinct();
    legend := RemoveWhileIterating(RowLegend, RowsForDeletion(index));
  }

  /** The single pass keeps every legend row the table has, "All" among them,
      in legend order, and drops only rows the table lacks. */
  lemma AsWrittenRowLegendKeepsPresent(index: seq<string>)
    ensures Subsequence(AsWrittenRowLegend(index), RowLegend)
    ensures forall x :: x in RowLegend && x in index ==> x in AsWrittenRowLegend(index)
    ensures Margin in index ==> Margin in AsWrittenRowLegend(index)
  {
    var d := RowsForDeletion(index);
    SkipPassSubsequence(RowLegend, d);
    SkipPassKeepsSurvivors(RowLegend, d);
    var r := AsWrittenRowLegend(index);
    forall x | x in RowLegend && x in index ensures x in r {
      assert x in Without(RowLegend, d);
    }
    RowLegendDistinct();
  }

  // ---- reindexing ----

  /** A row of the written report: counts, or the all-NaN row that `reindex`
      makes up for a label the table does not have. */
  datatype ReportRow = Counted(name: string, cells: seq<nat>) | Fabricated(name: string)

  datatype Report = Report(columns: seq<string>, rows: seq<ReportRow>)

  function RowOf(f: Frame, row: string): (r: ReportRow)
    requires WellFormed(f)
    ensures r.name == row
    ensures r.Counted? <==> row in f.index
    ensures r.Counted? ==> (|r.cells| == |f.columns| &&
      forall k :: 0 <= k < |f.columns| ==> r.cells[k] == f.columns[k].values[IndexOf(f.index, row)])
  {
    if row in f.index then
      Counted(row, seq(|f.columns|, k requires 0 <= k < |f.columns| => f.columns[k].values[IndexOf(f.index, row)]))
    else Fabricated(row)
  }

  /** `p_table.reindex(legend)`: the rows in legend order; pandas refuses to
      reindex a table whose row labels repeat. */
  function Reindex(f: Frame, legend: seq<string>): (r: Result<Report>)
    requires WellFormed(f)
    ensures r.Err? <==> !Distinct(f.index)
    ensures r.Err? ==> r.error == DuplicateLabels
    ensures r.Ok? ==> (r.value.columns == Names(f.columns) && |r.value.rows| == |legend| &&
      forall i :: 0 <= i < |legend| ==> r.value.rows[i] == RowOf(f, legend[i]))
  {
    if !Distinct(f.index) then Err(DuplicateLabels)
    else Ok(Report(Names(f.columns), seq(|legend|, i requires 0 <= i < |legend| => RowOf(f, legend[i]))))
  }

  // ---- the whole report ----

  /** The table after grouping, reversing and relabelling, before reindexing,
      with the bucket members taken from `observed`. */
  function Tabulate(records: seq<Record>, observed: seq<string>, anchored: bool): (r: Result<Frame>)
    ensures r.Ok? ==> WellFormed(r.value)
  {
    match BuildPivot(records)
    case Err(e) => Err(e)
    case Ok(pivot) =>
      match GroupAll(pivot, PrunedLegend(observed))
      case Err(e) => Err(e)
      case Ok(grouped) => Ok(ApplyRules(ReverseColumns(grouped), AllRules(), anchored))
  }

  /** `ngpbugs` as written, from the issues the query returned. */
  function NgpBugs(issues: seq<Issue>): (r: Result<Report>)
    ensures r.Ok? ==> forall i :: 0 <= i < |r.value.rows| ==> r.value.rows[i].name in RowLegend
  {
    var records := FlattenAll(issues);
    match Tabulate(records, ObservedResolutions(records), false)
    case Err(e) => Err(e)
    case Ok(t) => Reindex(t, AsWrittenRowLegend(t.index))
  }

  /** `ngpbugs` as evidently intended: buckets built from the resolutions the
      pivot counts, the patterns anchored at the start of the label, and the
      row legend reduced to the rows the table has. */
  function NgpBugsCorrected(issues: seq<Issue>): (r: Result<Report>)
    ensures r.Ok? ==> forall i :: 0 <= i < |r.value.rows| ==>
      r.value.rows[i].Counted? && r.value.rows[i].name in RowLegend
  {
    var records := FlattenAll(issues);
    match Tabulate(records, ObservedResolutions(Countable(records)), true)
    case Err(e) => Err(e)
    case Ok(t) =>
      if Distinct(t.index) then
        CorrectedReindexCountsAll(t);
        Reindex(t, CorrectedRowLegend(t.index))
      else Reindex(t, CorrectedRowLegend(t.index))
  }

  /** Lines 79-171 step by step, with the in-place loops of the source. */
  method RunNgpBugs(issues: seq<Issue>) returns (r: Result<Report>)
    ensures r == NgpBugs(issues)
  {
    var records := FlattenAll(issues);
    var legend := PruneForRun(ObservedResolutions(records));
    var pivot := BuildPivot(records);
    if pivot.Err? {
      return Err(pivot.error);
    }
    var table := new PivotTable(pivot.value);
    var err := table.GroupColumns(legend);
    if err.Some? {
      return Err(err.value);
    }
    var reversed := ReverseColumns(table.View());
    var relabelled := RelabelRows(reversed, false);
    var rowLegend := PruneRowLegend(relabelled.index);
    r := Reindex(relabelled, rowLegend);
  }

  /** The report fails with the empty-query error exactly when no issue has
      a component. */
  lemma EmptyQueryIffNoComponent(issues: seq<Issue>)
    ensures NgpBugs(issues) == Err(EmptyPivot) <==> forall r :: r in FlattenAll(issues) ==> !HasComponent(r)
    ensures NgpBugsCorrected(issues) == Err(EmptyPivot) <==> forall r :: r in FlattenAll(issues) ==> !HasComponent(r)
  {
    var records := FlattenAll(issues);
    PivotFailsIffNoComponent(records);
    TabulateEmptyIff(records, ObservedResolutions(records), false);
    TabulateEmptyIff(records, ObservedResolutions(Countable(records)), true);
  }

  /** Only the pivot fails with the empty-query error; grouping fails, if at
      all, with a missing column. */
  lemma TabulateEmptyIff(records: seq<Record>, observed: seq<string>, anchored: bool)
    ensures Tabulate(records, observed, anchored) == Err(EmptyPivot) <==> BuildPivot(records).Err?
  {
    if BuildPivot(records).Ok? {
      GroupAllMissingOnly(BuildPivot(records).value, PrunedLegend(observed));
    }
  }

  lemma {:induction false} GroupAllMissingOnly(f: Frame, legend: seq<Bucket>)
    requires WellFormed(f)
    ensures GroupAll(f, legend).Err? ==> GroupAll(f, legend).error.MissingColumn?
  {
    if legend != [] {
      var p := legend[..|legend| - 1];
      GroupAllMissingOnly(f, p);
      if GroupAll(f, p).Ok? {
        var b := legend[|legend| - 1];
        if |b.members| > 0 {
          SumColumnsMissingOnly(GroupAll(f, p).value, b.members);
        }
      }
    }
  }

  lemma {:induction false} SumColumnsMissingOnly(f: Frame, names: seq<string>)
    requires WellFormed(f) && names != []
    ensures SumColumns(f, names).Err? ==> SumColumns(f, names).error.MissingColumn?
    decreases |names|
  {
    if |names| > 1 {
      SumColumnsMissingOnly(f, names[..|names| - 1]);
    }
  }

  // ---- Finding: the single pass makes up rows ----

  /** A table holding only a PostgreSQL row and the margin: the single pass
      leaves five absent rows in the legend (each one right after a removed
      one), and the report gets all-NaN rows for them. */
  lemma SinglePassFabricatesRows(t: Frame)
    requires WellFormed(t) && t.index == ["PostgreSQL", Margin]
    ensures AsWrittenRowLegend(t.index) == ["PostgreSQL", "RabbitMQ", "Service-Fabrik", "Authentication", "BOSH", "Team2", "All"]
    ensures Reindex(t, AsWrittenRowLegend(t.index)).Ok?
    ensures Reindex(t, AsWrittenRowLegend(t.index)).value.rows[1] == Fabricated("RabbitMQ")
    ensures CorrectedRowLegend(t.index) == ["PostgreSQL", "All"]
  {
    PostgresOnlyDooms(t.index);
    PassOverMiddle();
    assert "RabbitMQ" !in t.index;
    PostgresOnlyKeeps(t.index);
  }

  /** Every legend row but the first and the last is to be deleted. */
  lemma PostgresOnlyDooms(index: seq<string>)
    requires index == ["PostgreSQL", Margin]
    ensures RowsForDeletion(index) == RowLegend[1..12]
  {
    RowLegendDistinct();
    WithoutMiddle(RowLegend, index);
  }

  /** The legend rows kept are the first and the last. */
  lemma PostgresOnlyKeeps(index: seq<string>)
    requires index == ["PostgreSQL", Margin]
    ensures KeepOnly(RowLegend, index) == ["PostgreSQL", "All"]
  {
    PostgresOnlyDooms(index);
    RowLegendDistinct();
    KeepEnds(RowLegend);
    assert CorrectedRowLegend(index) == Without(RowLegend, RowLegend[1..12]);
  }

  /** In a list without repetitions, no inner element is the first or the last. */
  lemma DistinctEnds(l: seq<string>, m: seq<string>)
    requires Distinct(l) && |l| >= 2 && m == l[1..|l| - 1]
    ensures forall x :: x in m ==> x != l[0] && x != l[|l| - 1]
  {
    forall i | 0 <= i < |m| ensures m[i] != l[0] && m[i] != l[|l| - 1] {
      assert m[i] == l[i + 1];
    }
  }

  lemma WithoutMiddle(l: seq<string>, ends: seq<string>)
    requires Distinct(l) && |l| >= 2 && ends == [l[0], l[|l| - 1]]
    ensures Without(l, ends) == l[1..|l| - 1]
  {
    DistinctEnds(l, l[1..|l| - 1]);
    WithoutDisjoint(l[1..|l| - 1], ends);
    SplitEnds(l, ends);
  }

  lemma KeepEnds(l: seq<string>)
    requires Distinct(l) && |l| >= 2
    ensures Without(l, l[1..|l| - 1]) == [l[0], l[|l| - 1]]
  {
    var m := l[1..|l| - 1];
    DistinctEnds(l, m);
    WithoutEvery(m, m);
    SplitEnds(l, m);
  }

  /** `Without` taken apart at the first and last elements. */
  lemma SplitEnds(l: seq<string>, d: seq<string>)
    requires |l| >= 2
    ensures Without(l, d) == Without([l[0]], d) + Without(l[1..|l| - 1], d) + Without([l[|l| - 1]], d)
  {
    var m := l[1..|l| - 1];
    assert l == [l[0]] + m + [l[|l| - 1]];
    WithoutAppend([l[0]] + m, [l[|l| - 1]], d);
    WithoutAppend([l[0]], m, d);
  }

  lemma {:induction false} WithoutDisjoint(s: seq<string>, d: seq<string>)
    requires forall i :: 0 <= i < |s| ==> s[i] !in d
    ensures Without(s, d) == s
  {
    if s != [] {
      WithoutDisjoint(s[1..], d);
    }
  }

  lemma {:induction false} WithoutEvery(s: seq<string>, d: seq<string>)
    requires forall i :: 0 <= i < |s| ==> s[i] in d
    ensures Without(s, d) == []
  {
    if s != [] {
      assert s[0] in d;
      WithoutEvery(s[1..], d);
    }
  }

  /** The single pass over the legend, with every row between the first and
      the last to be deleted: every second one of them survives. */
  lemma PassOverMiddle()
    ensures SkipPass(RowLegend, RowLegend[1..12]) ==
      ["PostgreSQL", "RabbitMQ", "Service-Fabrik", "Authentication", "BOSH", "Team2", "All"]
  {
    var l := RowLegend;
    var d := l[1..12];
    var t := l[1..];
    RowLegendDistinct();
    assert l[0] !in d by {
      forall i | 0 <= i < 11 ensures d[i] != l[0] {
        assert d[i] == l[i + 1];
      }
    }
    forall i | 0 <= i < |t| && i % 2 == 0 ensures t[i] in d {
      assert t[i] == d[i];
    }
    SkipPassAlternate(t, d);
    assert SkipPass(l, d) == [l[0]] + SkipPass(t, d);
  }

  /** With the corrected legend every row of the report is a counted row of
      the table, in legend order, and every legend row the table has is there. */
  lemma CorrectedReindexCountsAll(t: Frame)
    requires WellFormed(t) && Distinct(t.index)
    ensures var r := Reindex(t, CorrectedRowLegend(t.index));
      r.Ok? &&
      (forall i :: 0 <= i < |r.value.rows| ==> r.value.rows[i].Counted?) &&
      (forall x :: x in RowLegend && x in t.index <==> exists i :: 0 <= i < |r.value.rows| && r.value.rows[i].name == x)
  {
    var legend := CorrectedRowLegend(t.index);
    var r := Reindex(t, legend);
    forall x | x in RowLegend && x in t.index ensures exists i :: 0 <= i < |r.value.rows| && r.value.rows[i].name == x {
      var i :| 0 <= i < |legend| && legend[i] == x;
      assert r.value.rows[i].name == x;
    }
  }

  /** With the single pass, the report's made-up rows are exactly the legend
      rows left in although the table lacks them. */
  lemma AsWrittenReindexFabricates(t: Frame)
    requires WellFormed(t) && Distinct(t.index)
    ensures var legend := AsWrittenRowLegend(t.index); var r := Reindex(t, legend);
      r.Ok? && forall i :: 0 <= i < |legend| ==> (r.value.rows[i].Fabricated? <==> legend[i] !in t.index)
  {
  }

  // ---- Finding: resolutions of issues without a component ----

  /** Two issues: one under Redis, fixed, and one without a component, done.
      "Done" is observed, so it stays in the Resolved bucket, but the pivot has
      no "Done" column, and summing the bucket raises KeyError. */
  lemma ComponentlessResolutionBreaksGrouping()
    ensures NgpBugs([Issue("B-1", "", ["Redis"], [], Some("Fixed")), Issue("B-2", "", [], [], Some("Done"))])
      == Err(MissingColumn("Done"))
  {
    var issues := [Issue("B-1", "", ["Redis"], [], Some("Fixed")), Issue("B-2", "", [], [], Some("Done"))];
    var r1 := Record("B-1", "", "Redis", "", "Fixed");
    var r2 := Record("B-2", "", "", "", "Done");
    TwoIssuesFlatten(issues, r1, r2);
    var records := [r1, r2];
    TwoIssuesPivot(records, r1, r2);
    var f := BuildPivot(records).value;
    var observed := ObservedResolutions(records);
    TwoIssuesObserved(records, r1, r2);
    var legend := PrunedLegend(observed);
    TwoIssuesLegend(observed, legend);
    SecondBucketFails(f, legend, "Fixed", "Done");
  }

  lemma TwoIssuesFlatten(issues: seq<Issue>, r1: Record, r2: Record)
    requires issues == [Issue("B-1", "", ["Redis"], [], Some("Fixed")), Issue("B-2", "", [], [], Some("Done"))]
    requires r1 == Record("B-1", "", "Redis", "", "Fixed") && r2 == Record("B-2", "", "", "", "Done")
    ensures FlattenAll(issues) == [r1, r2]
  {
    assert Flatten(issues[0]) == r1;
    assert Flatten(issues[1]) == r2;
  }

  /** The pivot counts only the Redis issue: its one raw column is "Fixed". */
  lemma TwoIssuesPivot(records: seq<Record>, r1: Record, r2: Record)
    requires r1 == Record("B-1", "", "Redis", "", "Fixed") && r2 == Record("B-2", "", "", "", "Done")
    requires records == [r1, r2]
    ensures Countable(records) == [r1]
    ensures BuildPivot(records).Ok? && Names(BuildPivot(records).value.columns) == ["Fixed", Margin]
  {
    assert Countable(records) == [r1] by {
      assert records[1..] == [r2];
      assert Countable([r2]) == [];
    }
    assert Resolutions([r1]) == ["Fixed"];
    assert ["Fixed"][..0] == [];
    assert PivotColumns([r1]) == ["Fixed"];
    PivotShape(records);
  }

  lemma TwoIssuesObserved(records: seq<Record>, r1: Record, r2: Record)
    requires r1.resolution == "Fixed" && r2.resolution == "Done" && records == [r1, r2]
    ensures forall x :: x in ObservedResolutions(records) <==> x == "Fixed" || x == "Done"
  {
    assert records[0].resolution == "Fixed" && records[1].resolution == "Done";
  }

  /** Both "Fixed" and "Done" are observed: the Unresolved bucket is empty and
      the Resolved bucket keeps both. */
  lemma TwoIssuesLegend(observed: seq<string>, legend: seq<Bucket>)
    requires forall x :: x in observed <==> x == "Fixed" || x == "Done"
    requires legend == PrunedLegend(observed)
    ensures |legend| == 3 && legend[0].name == "Unresolved"
    ensures legend[0].members == [] && legend[1].members == ["Fixed", "Done"]
  {
    PrunedLegendIsFilter(observed);
    UnresolvedNotObserved(observed);
    assert KeepOnly(ResolvedMembers, observed) == ["Fixed", "Done"];
  }

  lemma UnresolvedNotObserved(observed: seq<string>)
    requires forall x :: x in observed <==> x == "Fixed" || x == "Done"
    ensures KeepOnly(UnresolvedMembers, observed) == []
  {
    var u := UnresolvedMembers;
    assert KeepOnly(u[5..], observed) == [];
    assert KeepOnly(u[3..], observed) == [];
    assert KeepOnly(u[1..], observed) == [];
  }

  /** A first bucket with no members adds its column; a second bucket whose
      first member is a column and whose second is not fails with the second. */
  lemma SecondBucketFails(f: Frame, legend: seq<Bucket>, x: string, y: string)
    requires WellFormed(f) && |legend| == 3
    requires legend[0].members == [] && legend[0].name !in Names(f.columns)
    requires legend[1].members == [x, y] && x in Names(f.columns) && y !in Names(f.columns) && y != legend[0].name
    ensures GroupAll(f, legend) == Err(MissingColumn(y))
  {
    var g := SetColumn(f, legend[0].name, Zeros(|f.index|));
    assert Names(g.columns) == Names(f.columns) + [legend[0].name];
    assert legend[..1][..0] == [];
    assert GroupAll(f, legend[..1]) == Ok(g);
    assert legend[..2][..1] == legend[..1];
    assert [x, y][..1] == [x];
    assert SumColumns(g, [x, y]) == Err(MissingColumn(y));
    assert GroupAll(f, legend[..2]) == Err(MissingColumn(y));
    GroupAllErrPrefix(f, legend, 2);
  }

  // ---- the corrected grouping ----

  /** The names the report itself uses are not also component or resolution
      names: no counted issue has the component "All" or a resolution named
      after a bucket or the margin. */
  predicate PlainNames(records: seq<Record>) {
    forall r :: r in records && HasComponent(r) ==>
      r.component != Margin && r.resolution !in [Margin, "Unresolved", "Resolved", "Consulted"]
  }

  /** The bucket legend built from the counted resolutions fits the pivot. */
  lemma CorrectedLegendFits(records: seq<Record>)
    requires BuildPivot(records).Ok? && PlainNames(records)
    ensures LegendFits(BuildPivot(records).value, PrunedLegend(ObservedResolutions(Countable(records))))
  {
    var observed := ObservedResolutions(Countable(records));
    PrunedLegendIsFilter(observed);
    PivotNamesPlain(records);
    DeclaredLegendFacts();
    FilteredLegendFits(BuildPivot(records).value, ResolutionLegend, PrunedLegend(observed), observed);
  }

  /** The declared buckets: distinct names that are no member, and no member
      shared by two buckets. */
  lemma DeclaredLegendFacts()
    ensures forall j, k :: 0 <= j < k < |ResolutionLegend| ==> ResolutionLegend[j].name != ResolutionLegend[k].name
    ensures forall j, k :: 0 <= j < |ResolutionLegend| && 0 <= k < |ResolutionLegend| ==>
      ResolutionLegend[j].name !in ResolutionLegend[k].members
    ensures forall j, k, x :: 0 <= j < k < |ResolutionLegend| && x in ResolutionLegend[j].members ==>
      x !in ResolutionLegend[k].members
  {
    BucketsPartitionVocabulary();
    LegendWellFormed();
    BucketNames();
    forall j, k | 0 <= j < |ResolutionLegend| && 0 <= k < |ResolutionLegend|
      ensures ResolutionLegend[j].name !in ResolutionLegend[k].members
    {
      assert !InSomeBucket(ResolutionLegend[j].name);
    }
  }

  /** A legend filtered from a well-formed declared legend, whose members the
      table has and whose names it lacks, fits the table. */
  lemma FilteredLegendFits(f: Frame, decl: seq<Bucket>, legend: seq<Bucket>, observed: seq<string>)
    requires Distinct(Names(f.columns)) && forall x :: x in observed ==> x in Names(f.columns)
    requires |legend| == |decl| && forall k :: 0 <= k < |decl| ==> legend[k].name == decl[k].name
    requires forall k :: 0 <= k < |legend| ==> legend[k].members == KeepOnly(decl[k].members, observed)
    requires forall k :: 0 <= k < |decl| ==> decl[k].name !in Names(f.columns)
    requires forall j, k :: 0 <= j < k < |decl| ==> decl[j].name != decl[k].name
    requires forall j, k :: 0 <= j < |decl| && 0 <= k < |decl| ==> decl[j].name !in decl[k].members
    requires forall j, k, x :: 0 <= j < k < |decl| && x in decl[j].members ==> x !in decl[k].members
    ensures LegendFits(f, legend)
  {
    forall j, k | 0 <= j < |legend| && 0 <= k < |legend| ensures legend[j].name !in legend[k].members {
      assert decl[j].name !in decl[k].members;
    }
    forall j, k, n | 0 <= j < k < |legend| && n in legend[j].members ensures n !in legend[k].members {
      assert n in decl[j].members;
    }
  }

  /** The pivot's column names repeat nothing, include every counted
      resolution and none of the bucket names. */
  lemma PivotNamesPlain(records: seq<Record>)
    requires BuildPivot(records).Ok? && PlainNames(records)
    ensures var names := Names(BuildPivot(records).value.columns);
      Distinct(names) &&
      (forall x :: x in ObservedResolutions(Countable(records)) ==> x in names) &&
      forall k :: 0 <= k < |ResolutionLegend| ==> ResolutionLegend[k].name !in names
  {
    var rs := Countable(records);
    var names := Names(BuildPivot(records).value.columns);
    PivotShape(records);
    var cols := PivotColumns(rs);
    assert Margin !in cols by {
      if Margin in cols {
        ReservedIsNoPivotColumn(records, Margin);
      }
    }
    DistinctAppend(cols, [Margin]);
    forall x | x in ObservedResolutions(rs) ensures x in names {
      ObservedIsPivotColumn(records, x);
    }
    BucketNames();
    forall k | 0 <= k < |ResolutionLegend| ensures ResolutionLegend[k].name !in names {
      var x := ResolutionLegend[k].name;
      if x in cols {
        ReservedIsNoPivotColumn(records, x);
      }
    }
  }

  /** A counted resolution is a raw column of the pivot. */
  lemma ObservedIsPivotColumn(records: seq<Record>, x: string)
    requires BuildPivot(records).Ok? && x in ObservedResolutions(Countable(records))
    ensures x in PivotColumns(Countable(records))
  {
    var rs := Countable(records);
    PivotShape(records);
    var i :| 0 <= i < |rs| && rs[i].resolution == x;
    assert rs[i] in rs;
  }

  /** The margin and the bucket names are no raw column of the pivot. */
  lemma ReservedIsNoPivotColumn(records: seq<Record>, x: string)
    requires BuildPivot(records).Ok? && PlainNames(records)
    requires x in [Margin, "Unresolved", "Resolved", "Consulted"]
    ensures x !in PivotColumns(Countable(records))
  {
    PivotShape(records);
  }

  /** Filtering by two lists that agree on the elements of `s` gives the same. */
  lemma {:induction false} WithoutSameOn(s: seq<string>, d1: seq<string>, d2: seq<string>)
    requires forall x :: x in s ==> (x in d1 <==> x in d2)
    ensures Without(s, d1) == Without(s, d2)
  {
    if s != [] {
      assert s[0] in s;
      assert forall x :: x in s[1..] ==> x in s;
      WithoutSameOn(s[1..], d1, d2);
    }
  }

  /** A raw column of the pivot is bucketed exactly when it is in the vocabulary. */
  lemma BucketedIffVocabulary(records: seq<Record>, x: string)
    requires BuildPivot(records).Ok? && x in PivotColumns(Countable(records))
    ensures var legend := PrunedLegend(ObservedResolutions(Countable(records)));
      x in AllMembers(legend) <==> x in AllResolution
  {
    var observed := ObservedResolutions(Countable(records));
    MembersInVocabulary(observed);
    if x in AllResolution {
      PivotColumnObserved(records, x);
      BucketsPartitionVocabulary();
      PrunedLegendIsFilter(observed);
      ObservedIsBucketed(PrunedLegend(observed), observed, x);
    }
  }

  /** Every raw column of the pivot is a counted resolution. */
  lemma PivotColumnObserved(records: seq<Record>, x: string)
    requires BuildPivot(records).Ok? && x in PivotColumns(Countable(records))
    ensures x in ObservedResolutions(Countable(records))
  {
    var rs := Countable(records);
    PivotShape(records);
    var r :| r in records && HasComponent(r) && r.resolution == x;
    var i :| 0 <= i < |rs| && rs[i] == r;
  }

  /** An observed member of a declared bucket is a member of the pruned legend. */
  lemma ObservedIsBucketed(legend: seq<Bucket>, observed: seq<string>, x: string)
    requires |legend| == |ResolutionLegend|
    requires forall k :: 0 <= k < |ResolutionLegend| ==> legend[k].members == KeepOnly(ResolutionLegend[k].members, observed)
    requires x in observed && InSomeBucket(x)
    ensures x in AllMembers(legend)
  {
    var k :| 0 <= k < |ResolutionLegend| && x in ResolutionLegend[k].members;
    assert x in legend[k].members;
  }

  /** After grouping the columns keep the pivot's other raw columns and its
      margin, in order. */
  lemma CorrectedKeptNames(records: seq<Record>)
    requires BuildPivot(records).Ok? && PlainNames(records)
    ensures var f := BuildPivot(records).value; var rs := Countable(records);
      var legend := PrunedLegend(ObservedResolutions(rs));
      Names(KeepColumns(f.columns, AllMembers(legend))) == Without(PivotColumns(rs), AllResolution) + [Margin]
  {
    var f := BuildPivot(records).value;
    var rs := Countable(records);
    var members := AllMembers(PrunedLegend(ObservedResolutions(rs)));
    PivotShape(records);
    var cols := PivotColumns(rs);
    forall x | x in cols ensures x in members <==> x in AllResolution {
      BucketedIffVocabulary(records, x);
    }
    MembersInVocabulary(ObservedResolutions(rs));
    BucketNames();
    KeptLayout(cols, members, AllResolution);
  }

  /** Every bucket member is a vocabulary name. */
  lemma MembersInVocabulary(observed: seq<string>)
    ensures forall x :: x in AllMembers(PrunedLegend(observed)) ==> x in AllResolution
  {
    var legend := PrunedLegend(observed);
    PrunedLegendIsFilter(observed);
    MembersAreVocabulary();
    forall x | x in AllMembers(legend) ensures x in AllResolution {
      var k :| 0 <= k < |legend| && x in legend[k].members;
      assert legend[k].members == KeepOnly(ResolutionLegend[k].members, observed);
    }
  }

  lemma KeptLayout(cols: seq<string>, members: seq<string>, vocab: seq<string>)
    requires forall x :: x in cols ==> (x in members <==> x in vocab)
    requires Margin !in members
    ensures Without(cols + [Margin], members) == Without(cols, vocab) + [Margin]
  {
    WithoutAppend(cols, [Margin], members);
    WithoutSameOn(cols, members, vocab);
  }

  /** The column names after grouping: `u`, the margin, then the three
      bucket names in legend order. */
  predicate GroupedNames(names: seq<string>, u: seq<string>) {
    |names| == |u| + 4 && names[..|u|] == u && names[|u|] == Margin &&
    forall k :: 0 <= k < |ResolutionLegend| ==> names[|u| + 1 + k] == ResolutionLegend[k].name
  }

  /** After grouping: the raw columns outside the vocabulary in ascending
      order, the pivot's margin column unchanged, then the three buckets in
      legend order. */
  lemma CorrectedGrouped(records: seq<Record>)
    requires BuildPivot(records).Ok? && PlainNames(records)
    ensures var f := BuildPivot(records).value; var rs := Countable(records);
      var g := GroupAll(f, PrunedLegend(ObservedResolutions(rs)));
      var u := Without(PivotColumns(rs), AllResolution);
      g.Ok? && g.value.index == f.index && GroupedNames(Names(g.value.columns), u) &&
      g.value.columns[|u|] == f.columns[|f.columns| - 1]
  {
    var f := BuildPivot(records).value;
    var rs := Countable(records);
    var legend := PrunedLegend(ObservedResolutions(rs));
    CorrectedLegendFits(records);
    GroupAllShape(f, legend);
    FitsMembers(f, legend);
    CorrectedKeptNames(records);
    PivotShape(records);
    MembersInVocabulary(ObservedResolutions(rs));
    BucketNames();
    GroupedLayout(f, legend, Without(PivotColumns(rs), AllResolution));
  }

  lemma GroupedLayout(f: Frame, legend: seq<Bucket>, u: seq<string>)
    requires WellFormed(f) && forall n :: n in AllMembers(legend) ==> n in Names(f.columns)
    requires GroupAll(f, legend) == Ok(Frame(f.index, KeepColumns(f.columns, AllMembers(legend)) + BucketColumns(f, legend)))
    requires |legend| == |ResolutionLegend| && forall k :: 0 <= k < |legend| ==> legend[k].name == ResolutionLegend[k].name
    requires |f.columns| > 0 && f.columns[|f.columns| - 1].name == Margin && Margin !in AllMembers(legend)
    requires Names(KeepColumns(f.columns, AllMembers(legend))) == u + [Margin]
    ensures var g := GroupAll(f, legend);
      g.Ok? && g.value.index == f.index && GroupedNames(Names(g.value.columns), u) &&
      g.value.columns[|u|] == f.columns[|f.columns| - 1]
  {
    KeepLast(f.columns, AllMembers(legend));
    LayoutNames(KeepColumns(f.columns, AllMembers(legend)), BucketColumns(f, legend), u);
  }

  /** The kept columns, ending with the margin, followed by the three bucket
      columns. */
  lemma LayoutNames(kept: seq<Column>, bcs: seq<Column>, u: seq<string>)
    requires Names(kept) == u + [Margin]
    requires |bcs| == |ResolutionLegend| && forall k :: 0 <= k < |bcs| ==> bcs[k].name == ResolutionLegend[k].name
    ensures GroupedNames(Names(kept + bcs), u) && (kept + bcs)[|u|] == kept[|kept| - 1]
  {
    var n := Names(kept + bcs);
    assert |kept| == |u| + 1;
    forall i | 0 <= i < |u| ensures n[i] == u[i] {
      assert n[i] == Names(kept)[i];
    }
    assert n[|u|] == Names(kept)[|u|];
    forall k | 0 <= k < |bcs| ensures n[|u| + 1 + k] == ResolutionLegend[k].name {
      assert (kept + bcs)[|u| + 1 + k] == bcs[k];
    }
  }

  // ---- the corrected report ----

  /** The column layout of the written report: Consulted, Resolved,
      Unresolved, All, then the raw resolutions outside the buckets in
      descending order. */
  predicate ReportColumns(names: seq<string>, u: seq<string>) {
    |names| == |u| + 4 && names[..4] == ["Consulted", "Resolved", "Unresolved", Margin] &&
    forall i :: 4 <= i < |names| ==> names[i] == u[|names| - 1 - i]
  }

  /** A report in that layout whose rows all count and whose last row is the
      "All" row with `total` in its "All" cell. */
  predicate ReportShape(rep: Report, u: seq<string>, total: nat) {
    ReportColumns(rep.columns, u) && |rep.rows| > 0 &&
    (forall i :: 0 <= i < |rep.rows| ==> rep.rows[i].Counted?) &&
    rep.rows[|rep.rows| - 1].Counted? && rep.rows[|rep.rows| - 1].name == Margin &&
    |rep.rows[|rep.rows| - 1].cells| > 3 && rep.rows[|rep.rows| - 1].cells[3] == total
  }

  /** With no surprising names the corrected report succeeds whenever some
      issue has a component: its columns are the three buckets, the margin
      and the other raw resolutions, every row counts, and the last row is the
      "All" row whose "All" cell is the number of issues with a component. */
  lemma CorrectedReportSucceeds(issues: seq<Issue>)
    requires PlainNames(FlattenAll(issues))
    requires exists r :: r in FlattenAll(issues) && HasComponent(r)
    ensures var rs := Countable(FlattenAll(issues)); var rep := NgpBugsCorrected(issues);
      rep.Ok? && ReportShape(rep.value, Without(PivotColumns(rs), AllResolution), |rs|)
  {
    var records := FlattenAll(issues);
    var rs := Countable(records);
    PivotFailsIffNoComponent(records);
    var f := BuildPivot(records).value;
    var u := Without(PivotColumns(rs), AllResolution);
    CorrectedGrouped(records);
    var g := GroupAll(f, PrunedLegend(ObservedResolutions(rs))).value;
    PivotMarginRowLast(records);
    PivotMargins(records);
    CorrectedTail(g, u, |rs|);
  }

  /** A pivot with no component named "All" has its "All" row last and only there. */
  lemma PivotMarginRowLast(records: seq<Record>)
    requires BuildPivot(records).Ok? && PlainNames(records)
    ensures MarginRowLast(BuildPivot(records).value.index)
  {
    PivotShape(records);
    var rs := Countable(records);
    var index := BuildPivot(records).value.index;
    assert index[..|index| - 1] == PivotRows(rs);
  }

  /** Reversing, relabelling with anchored patterns and reindexing by the
      reduced legend, from a grouped table with its "All" row last. */
  lemma CorrectedTail(g: Frame, u: seq<string>, total: nat)
    requires WellFormed(g) && GroupedNames(Names(g.columns), u) && MarginRowLast(g.index)
    requires g.columns[|u|].values[|g.index| - 1] == total
    ensures var t := ApplyRules(ReverseColumns(g), AllRules(), true);
      var rep := Reindex(t, CorrectedRowLegend(t.index));
      rep.Ok? && ReportShape(rep.value, u, total)
  {
    ReversedGroupedNames(g, u);
    var h := ReverseColumns(g);
    AllRulesSpareMargin();
    ApplyRulesKeepsMarginRow(h, AllRules(), true);
    ReportOfRelabelled(h, ApplyRules(h, AllRules(), true), u, total);
  }

  lemma ReportOfRelabelled(h: Frame, t: Frame, u: seq<string>, total: nat)
    requires WellFormed(h) && ReportColumns(Names(h.columns), u) && MarginRowLast(h.index)
    requires h.columns[3].values[|h.index| - 1] == total
    requires WellFormed(t) && Names(t.columns) == Names(h.columns) && Distinct(t.index)
    requires MarginRowLast(t.index) && LastRow(t) == LastRow(h)
    ensures var rep := Reindex(t, CorrectedRowLegend(t.index));
      rep.Ok? && ReportShape(rep.value, u, total)
  {
    RowLegendDistinct();
    KeepOnlyLast(RowLegend, t.index);
    ReindexCountsMargin(t, CorrectedRowLegend(t.index));
    assert LastRow(h)[3] == h.columns[3].values[|h.index| - 1];
  }

  /** Reversal puts the buckets and the margin first, in the report's order. */
  lemma ReversedGroupedNames(g: Frame, u: seq<string>)
    requires WellFormed(g) && GroupedNames(Names(g.columns), u)
    ensures var h := ReverseColumns(g);
      ReportColumns(Names(h.columns), u) && h.columns[3] == g.columns[|u|]
  {
    var h := ReverseColumns(g);
    ReverseColumnsPermutes(g);
    var names := Names(h.columns);
    var gn := Names(g.columns);
    BucketNames();
    assert names[0] == gn[|u| + 3] == ResolutionLegend[2].name;
    assert names[1] == gn[|u| + 2] == ResolutionLegend[1].name;
    assert names[2] == gn[|u| + 1] == ResolutionLegend[0].name;
    assert names[3] == gn[|u|];
    assert names[..4] == [names[0], names[1], names[2], names[3]];
    forall i | 4 <= i < |names| ensures names[i] == u[|names| - 1 - i] {
      assert names[i] == gn[|names| - 1 - i];
      assert gn[..|u|][|names| - 1 - i] == gn[|names| - 1 - i];
    }
  }

  /** Reindexing a table with unique labels and the "All" row last by a legend
      of its own rows that ends with "All" counts every row and ends with the
      table's "All" row. */
  lemma ReindexCountsMargin(t: Frame, legend: seq<string>)
    requires WellFormed(t) && Distinct(t.index) && MarginRowLast(t.index)
    requires |legend| > 0 && legend[|legend| - 1] == Margin
    requires forall x :: x in legend ==> x in t.index
    ensures var r := Reindex(t, legend);
      r.Ok? && r.value.columns == Names(t.columns) && |r.value.rows| == |legend| &&
      (forall i :: 0 <= i < |legend| ==> r.value.rows[i].Counted?) &&
      r.value.rows[|legend| - 1] == Counted(Margin, LastRow(t))
  {
    var n := |t.index|;
    forall k | 0 <= k < n - 1 ensures t.index[k] != Margin {
      assert t.index[..n - 1][k] == t.index[k];
    }
    var r := Reindex(t, legend);
    forall i | 0 <= i < |legend| ensures r.value.rows[i].Counted? {
      assert legend[i] in legend;
    }
    assert IndexOf(t.index, Margin) == n - 1;
    assert RowOf(t, Margin).cells == LastRow(t);
  }
}

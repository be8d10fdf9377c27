/** The issue-count pivot: one row per component string, one column per raw
    resolution, with an "All" margin row and column, as
    `pivot_table(index='Component/s', columns='Resolution', values='Key',
    aggfunc='count', margins=True, fill_value=0)` builds it from the sheet. */
module Pivot {
  import opened Seqs
  import opened Strings
  import opened Outcomes
  import opened Records

  /** A named column of counts. */
  datatype Column = Column(name: string, values: seq<nat>)

  /** A table: row labels and the columns, each holding one count per row. */
  datatype Frame = Frame(index: seq<string>, columns: seq<Column>)

  /** The label of the margin row and column. */
  const Margin := "All"

  ghost predicate WellFormed(f: Frame) {
    forall k :: 0 <= k < |f.columns| ==> |f.columns[k].values| == |f.index|
  }

  function Names(cols: seq<Column>): (r: seq<string>)
    ensures |r| == |cols| && forall k :: 0 <= k < |cols| ==> r[k] == cols[k].name
  {
    seq(|cols|, k requires 0 <= k < |cols| => cols[k].name)
  }

  lemma NamesCons(c: Column, cs: seq<Column>)
    ensures Names([c] + cs) == [c.name] + Names(cs)
  {
  }

  lemma NamesTail(cols: seq<Column>)
    requires cols != []
    ensures Names(cols)[1..] == Names(cols[1..])
  {
  }

  // ---- counting ----

  /** An empty Component/s cell reads back as a missing value, and the pivot
      leaves such rows out. */
  predicate HasComponent(r: Record) {
    r.component != ""
  }

  /** The records the pivot counts. */
  function Countable(rs: seq<Record>): (r: seq<Record>)
    ensures forall x :: x in r <==> x in rs && HasComponent(x)
  {
    if rs == [] then []
    else if HasComponent(rs[0]) then [rs[0]] + Countable(rs[1..])
    else Countable(rs[1..])
  }

  /** Each record the pivot counts is kept as often as it occurs, and each
      record without a component is dropped every time: the filter neither
      merges repeated issues nor makes any up. */
  lemma {:induction false} CountableKeepsMultiplicity(rs: seq<Record>)
    ensures forall x :: multiset(Countable(rs))[x] == if HasComponent(x) then multiset(rs)[x] else 0
  {
    if rs != [] {
      CountableKeepsMultiplicity(rs[1..]);
      assert rs == [rs[0]] + rs[1..];
      assert multiset(rs) == multiset([rs[0]]) + multiset(rs[1..]);
      if HasComponent(rs[0]) {
        assert multiset(Countable(rs)) == multiset([rs[0]]) + multiset(Countable(rs[1..]));
      }
    }
  }

  /** Records with component `c` and resolution `res`. */
  function CountCell(rs: seq<Record>, c: string, res: string): nat {
    if rs == [] then 0
    else CountCell(rs[..|rs| - 1], c, res) + (if rs[|rs| - 1].component == c && rs[|rs| - 1].resolution == res then 1 else 0)
  }

  /** Records with component `c`. */
  function CountComponent(rs: seq<Record>, c: string): nat {
    if rs == [] then 0
    else CountComponent(rs[..|rs| - 1], c) + (if rs[|rs| - 1].component == c then 1 else 0)
  }

  /** Records with resolution `res`. */
  function CountResolution(rs: seq<Record>, res: string): nat {
    if rs == [] then 0
    else CountResolution(rs[..|rs| - 1], res) + (if rs[|rs| - 1].resolution == res then 1 else 0)
  }

  function ComponentLabels(rs: seq<Record>): (r: seq<string>)
    ensures |r| == |rs| && forall i :: 0 <= i < |rs| ==> r[i] == rs[i].component
  {
    seq(|rs|, i requires 0 <= i < |rs| => rs[i].component)
  }

  /** The pivot's rows: the distinct components in ascending order, then the margin. */
  function PivotRows(rs: seq<Record>): seq<string> {
    SortedUnique(ComponentLabels(rs))
  }

  /** The pivot's raw columns: the distinct resolutions in ascending order. */
  function PivotColumns(rs: seq<Record>): seq<string> {
    SortedUnique(Resolutions(rs))
  }

  function CountColumn(rs: seq<Record>, comps: seq<string>, res: string): (c: Column)
    ensures c.name == res && |c.values| == |comps| + 1
  {
    Column(res, seq(|comps|, i requires 0 <= i < |comps| => CountCell(rs, comps[i], res)) + [CountResolution(rs, res)])
  }

  function MarginColumn(rs: seq<Record>, comps: seq<string>): (c: Column)
    ensures c.name == Margin && |c.values| == |comps| + 1
  {
    Column(Margin, seq(|comps|, i requires 0 <= i < |comps| => CountComponent(rs, comps[i])) + [|rs|])
  }

  /** The pivot, or ValueError when no record has a component to pivot on. */
  function BuildPivot(records: seq<Record>): (r: Result<Frame>)
    ensures r.Err? ==> r.error == EmptyPivot
    ensures r.Ok? ==> WellFormed(r.value)
  {
    var rs := Countable(records);
    if rs == [] then Err(EmptyPivot)
    else
      var comps := PivotRows(rs);
      var ress := PivotColumns(rs);
      Ok(Frame(comps + [Margin],
        seq(|ress|, k requires 0 <= k < |ress| => CountColumn(rs, comps, ress[k])) + [MarginColumn(rs, comps)]))
  }

  // ---- properties ----

  /** The pivot fails exactly when no record has a component; an empty record
      list is one such case. */
  lemma {:induction false} PivotFailsIffNoComponent(records: seq<Record>)
    ensures BuildPivot(records).Err? <==> forall r :: r in records ==> !HasComponent(r)
  {
    if Countable(records) != [] {
      assert Countable(records)[0] in records;
    }
  }

  /** An issue without a component changes nothing in the pivot. */
  lemma {:induction false} ComponentlessIgnored(records: seq<Record>, r: Record)
    requires !HasComponent(r)
    ensures BuildPivot(records + [r]) == BuildPivot(records)
  {
    CountableAppend(records, [r]);
    assert Countable([r]) == [];
    assert Countable(records + [r]) == Countable(records);
  }

  lemma {:induction false} CountableAppend(a: seq<Record>, b: seq<Record>)
    ensures Countable(a + b) == Countable(a) + Countable(b)
  {
    if a == [] {
      assert a + b == b;
    } else {
      assert (a + b)[1..] == a[1..] + b;
      CountableAppend(a[1..], b);
    }
  }

  /** Row and column labels: sorted distinct components and resolutions, each
      followed by the margin. */
  lemma PivotShape(records: seq<Record>)
    requires BuildPivot(records).Ok?
    ensures var f := BuildPivot(records).value; var rs := Countable(records);
      f.index == PivotRows(rs) + [Margin] &&
      Names(f.columns) == PivotColumns(rs) + [Margin] &&
      Sorted(PivotRows(rs)) && Sorted(PivotColumns(rs)) &&
      (forall c :: c in PivotRows(rs) <==> exists x :: x in records && HasComponent(x) && x.component == c) &&
      (forall res :: res in PivotColumns(rs) <==> exists x :: x in records && HasComponent(x) && x.resolution == res)
  {
    var rs := Countable(records);
    var f := BuildPivot(records).value;
    assert Names(f.columns) == PivotColumns(rs) + [Margin];
    ComponentsObserved(records);
    ResolutionsObserved(records);
  }

  /** A component labels a row exactly when some record with a component has it. */
  lemma ComponentsObserved(records: seq<Record>)
    ensures forall c :: c in ComponentLabels(Countable(records)) <==> exists x :: x in records && HasComponent(x) && x.component == c
  {
    var rs := Countable(records);
    forall c ensures c in ComponentLabels(rs) <==> exists x :: x in records && HasComponent(x) && x.component == c {
      if c in ComponentLabels(rs) {
        var i :| 0 <= i < |rs| && ComponentLabels(rs)[i] == c;
        assert rs[i] in rs;
      }
      if exists x :: x in records && HasComponent(x) && x.component == c {
        var x :| x in records && HasComponent(x) && x.component == c;
        var i :| 0 <= i < |rs| && rs[i] == x;
        assert ComponentLabels(rs)[i] == c;
      }
    }
  }

  /** A resolution labels a column exactly when some record with a component has it. */
  lemma ResolutionsObserved(records: seq<Record>)
    ensures forall res :: res in Resolutions(Countable(records)) <==> exists x :: x in records && HasComponent(x) && x.resolution == res
  {
    var rs := Countable(records);
    forall res ensures res in Resolutions(rs) <==> exists x :: x in records && HasComponent(x) && x.resolution == res {
      if res in Resolutions(rs) {
        var i :| 0 <= i < |rs| && Resolutions(rs)[i] == res;
        assert rs[i] in rs;
      }
      if exists x :: x in records && HasComponent(x) && x.resolution == res {
        var x :| x in records && HasComponent(x) && x.resolution == res;
        var i :| 0 <= i < |rs| && rs[i] == x;
        assert Resolutions(rs)[i] == res;
      }
    }
  }

  // ---- margins ----

  /** 1 for each record with resolution `res`, 0 for the others. */
  function ResolutionMask(rs: seq<Record>, res: string): (m: seq<nat>)
    ensures |m| == |rs| && forall i :: 0 <= i < |rs| ==> m[i] == if rs[i].resolution == res then 1 else 0
  {
    seq(|rs|, i requires 0 <= i < |rs| => if rs[i].resolution == res then 1 else 0)
  }

  /** 1 for each record with component `c`, 0 for the others. */
  function ComponentMask(rs: seq<Record>, c: string): (m: seq<nat>)
    ensures |m| == |rs| && forall i :: 0 <= i < |rs| ==> m[i] == if rs[i].component == c then 1 else 0
  {
    seq(|rs|, i requires 0 <= i < |rs| => if rs[i].component == c then 1 else 0)
  }

  function Ones(n: nat): (o: seq<nat>)
    ensures |o| == n && forall i :: 0 <= i < n ==> o[i] == 1
  {
    seq(n, _ => 1)
  }

  lemma {:induction false} SumOnes(n: nat)
    ensures Sum(Ones(n)) == n
  {
    if n > 0 {
      assert Ones(n)[..n - 1] == Ones(n - 1);
      SumOnes(n - 1);
    }
  }

  /** The cell count, read by component over the resolution mask and by
      resolution over the component mask. */
  lemma {:induction false} CountCellAsSums(rs: seq<Record>, c: string, res: string)
    ensures CountCell(rs, c, res) == SumWhere(ComponentLabels(rs), ResolutionMask(rs, res), c)
    ensures CountCell(rs, c, res) == SumWhere(Resolutions(rs), ComponentMask(rs, c), res)
  {
    var n := |rs|;
    if n > 0 {
      var p := rs[..n - 1];
      assert ComponentLabels(rs)[..n - 1] == ComponentLabels(p);
      assert ResolutionMask(rs, res)[..n - 1] == ResolutionMask(p, res);
      assert Resolutions(rs)[..n - 1] == Resolutions(p);
      assert ComponentMask(rs, c)[..n - 1] == ComponentMask(p, c);
      CountCellAsSums(p, c, res);
    }
  }

  lemma {:induction false} CountComponentAsSums(rs: seq<Record>, c: string)
    ensures CountComponent(rs, c) == SumWhere(ComponentLabels(rs), Ones(|rs|), c)
    ensures CountComponent(rs, c) == Sum(ComponentMask(rs, c))
  {
    var n := |rs|;
    if n > 0 {
      var p := rs[..n - 1];
      assert ComponentLabels(rs)[..n - 1] == ComponentLabels(p);
      assert Ones(n)[..n - 1] == Ones(n - 1);
      assert ComponentMask(rs, c)[..n - 1] == ComponentMask(p, c);
      CountComponentAsSums(p, c);
    }
  }

  lemma {:induction false} CountResolutionAsSums(rs: seq<Record>, res: string)
    ensures CountResolution(rs, res) == Sum(ResolutionMask(rs, res))
    ensures CountResolution(rs, res) == SumWhere(Resolutions(rs), Ones(|rs|), res)
  {
    var n := |rs|;
    if n > 0 {
      var p := rs[..n - 1];
      assert ResolutionMask(rs, res)[..n - 1] == ResolutionMask(p, res);
      assert Resolutions(rs)[..n - 1] == Resolutions(p);
      assert Ones(n)[..n - 1] == Ones(n - 1);
      CountResolutionAsSums(p, res);
    }
  }

  /** The cells of row `i` other than those of column `a` (which reads as 0). */
  function RowCells(cols: seq<Column>, a: nat, i: nat): (r: seq<nat>)
    requires forall k :: 0 <= k < |cols| ==> i < |cols[k].values|
    ensures |r| == |cols|
  {
    seq(|cols|, k requires 0 <= k < |cols| => if k == a then 0 else cols[k].values[i])
  }

  /** Column `a` is the "All" margin and holds, in every row, the sum of that
      row's other cells. */
  ghost predicate MarginAddsUp(f: Frame, a: nat) {
    WellFormed(f) && a < |f.columns| && f.columns[a].name == Margin &&
    forall i :: 0 <= i < |f.index| ==> f.columns[a].values[i] == Sum(RowCells(f.columns, a, i))
  }

  /** The column of the "All" row holds the sum of its component rows. */
  ghost predicate ColumnAddsUp(c: Column) {
    |c.values| > 0 && c.values[|c.values| - 1] == Sum(c.values[..|c.values| - 1])
  }

  lemma {:induction false} SumSnocZero(v: seq<nat>)
    ensures Sum(v + [0]) == Sum(v)
  {
    assert (v + [0])[..|v|] == v;
  }

  /** A resolution column's "All" cell sums its component rows. */
  lemma CountColumnAddsUp(rs: seq<Record>, comps: seq<string>, res: string)
    requires Distinct(comps) && forall x :: x in ComponentLabels(rs) ==> x in comps
    ensures ColumnAddsUp(CountColumn(rs, comps, res))
  {
    var c := CountColumn(rs, comps, res);
    var cl := ComponentLabels(rs);
    assert c.values[..|c.values| - 1] == c.values[..|comps|];
    forall i | 0 <= i < |comps| ensures c.values[i] == GroupSums(cl, ResolutionMask(rs, res), comps)[i] {
      CountCellAsSums(rs, comps[i], res);
    }
    assert c.values[..|comps|] == GroupSums(cl, ResolutionMask(rs, res), comps);
    GroupSumsTotal(cl, ResolutionMask(rs, res), comps);
    CountResolutionAsSums(rs, res);
  }

  /** The "All" column's "All" cell sums its component rows. */
  lemma MarginColumnAddsUp(rs: seq<Record>, comps: seq<string>)
    requires Distinct(comps) && forall x :: x in ComponentLabels(rs) ==> x in comps
    ensures ColumnAddsUp(MarginColumn(rs, comps))
  {
    var c := MarginColumn(rs, comps);
    var cl := ComponentLabels(rs);
    assert c.values[..|c.values| - 1] == c.values[..|comps|];
    forall i | 0 <= i < |comps| ensures c.values[i] == GroupSums(cl, Ones(|rs|), comps)[i] {
      CountComponentAsSums(rs, comps[i]);
    }
    assert c.values[..|comps|] == GroupSums(cl, Ones(|rs|), comps);
    GroupSumsTotal(cl, Ones(|rs|), comps);
    SumOnes(|rs|);
  }

  /** Row `i`'s "All" cell sums its resolution cells. */
  lemma RowAddsUp(rs: seq<Record>, comps: seq<string>, ress: seq<string>, i: nat)
    requires i <= |comps|
    requires Distinct(ress) && forall x :: x in Resolutions(rs) ==> x in ress
    ensures var cols := seq(|ress|, k requires 0 <= k < |ress| => CountColumn(rs, comps, ress[k])) + [MarginColumn(rs, comps)];
      MarginColumn(rs, comps).values[i] == Sum(RowCells(cols, |ress|, i))
  {
    var cols := seq(|ress|, k requires 0 <= k < |ress| => CountColumn(rs, comps, ress[k])) + [MarginColumn(rs, comps)];
    var a := |ress|;
    var row := RowCells(cols, a, i);
    assert row == row[..a] + [0];
    SumSnocZero(row[..a]);
    if i < |comps| {
      ComponentRowAddsUp(rs, comps, ress, i, row[..a]);
    } else {
      MarginRowAddsUp(rs, comps, ress, row[..a]);
    }
  }

  /** A component's row: its resolution cells sum to its count. */
  lemma ComponentRowAddsUp(rs: seq<Record>, comps: seq<string>, ress: seq<string>, i: nat, cells: seq<nat>)
    requires i < |comps|
    requires Distinct(ress) && forall x :: x in Resolutions(rs) ==> x in ress
    requires |cells| == |ress| && forall k :: 0 <= k < |ress| ==> cells[k] == CountColumn(rs, comps, ress[k]).values[i]
    ensures MarginColumn(rs, comps).values[i] == Sum(cells)
  {
    var c := comps[i];
    forall k | 0 <= k < |ress| ensures cells[k] == GroupSums(Resolutions(rs), ComponentMask(rs, c), ress)[k] {
      CountCellAsSums(rs, c, ress[k]);
    }
    assert cells == GroupSums(Resolutions(rs), ComponentMask(rs, c), ress);
    GroupSumsTotal(Resolutions(rs), ComponentMask(rs, c), ress);
    CountComponentAsSums(rs, c);
  }

  /** The margin row: the resolution totals sum to the number of records. */
  lemma MarginRowAddsUp(rs: seq<Record>, comps: seq<string>, ress: seq<string>, cells: seq<nat>)
    requires Distinct(ress) && forall x :: x in Resolutions(rs) ==> x in ress
    requires |cells| == |ress| && forall k :: 0 <= k < |ress| ==> cells[k] == CountColumn(rs, comps, ress[k]).values[|comps|]
    ensures MarginColumn(rs, comps).values[|comps|] == Sum(cells)
  {
    forall k | 0 <= k < |ress| ensures cells[k] == GroupSums(Resolutions(rs), Ones(|rs|), ress)[k] {
      CountResolutionAsSums(rs, ress[k]);
    }
    assert cells == GroupSums(Resolutions(rs), Ones(|rs|), ress);
    GroupSumsTotal(Resolutions(rs), Ones(|rs|), ress);
    SumOnes(|rs|);
  }

  /** The margins agree with the cells: every column's "All" cell is the sum of
      its component rows, every row's "All" cell is the sum of its resolution
      cells, and the grand total is the number of counted records. */
  lemma PivotMargins(records: seq<Record>)
    requires BuildPivot(records).Ok?
    ensures var f := BuildPivot(records).value;
      |f.columns| > 0 && f.columns[|f.columns| - 1].name == Margin &&
      f.index[|f.index| - 1] == Margin &&
      f.columns[|f.columns| - 1].values[|f.index| - 1] == |Countable(records)| &&
      MarginAddsUp(f, |f.columns| - 1) &&
      forall k :: 0 <= k < |f.columns| ==> ColumnAddsUp(f.columns[k])
  {
    PivotShape(records);
    PivotColumnsAddUp(records);
    PivotRowsAddUp(records);
  }

  lemma PivotColumnsAddUp(records: seq<Record>)
    requires BuildPivot(records).Ok?
    ensures var f := BuildPivot(records).value;
      forall k :: 0 <= k < |f.columns| ==> ColumnAddsUp(f.columns[k])
  {
    var rs := Countable(records);
    var f := BuildPivot(records).value;
    var comps := PivotRows(rs);
    var ress := PivotColumns(rs);
    assert forall x :: x in ComponentLabels(rs) ==> x in comps;
    forall k | 0 <= k < |f.columns| ensures ColumnAddsUp(f.columns[k]) {
      if k < |ress| {
        CountColumnAddsUp(rs, comps, ress[k]);
      } else {
        MarginColumnAddsUp(rs, comps);
      }
    }
  }

  lemma PivotRowsAddUp(records: seq<Record>)
    requires BuildPivot(records).Ok?
    ensures var f := BuildPivot(records).value; var a := |PivotColumns(Countable(records))|;
      forall i :: 0 <= i < |f.index| ==> f.columns[a].values[i] == Sum(RowCells(f.columns, a, i))
  {
    var rs := Countable(records);
    var f := BuildPivot(records).value;
    var comps := PivotRows(rs);
    var ress := PivotColumns(rs);
    assert forall x :: x in Resolutions(rs) ==> x in ress;
    forall i | 0 <= i < |f.index| ensures f.columns[|ress|].values[i] == Sum(RowCells(f.columns, |ress|, i)) {
      RowAddsUp(rs, comps, ress, i);
    }
  }
}

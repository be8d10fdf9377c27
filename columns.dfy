/** Grouping the raw resolution columns into the three bucket columns, and
    reversing the column order. */
module Columns {
  import opened Seqs
  import opened Outcomes
  import opened Vocabulary
  import opened Pivot

  // ---- pandas column access ----

  /** Column `k` is the first one called `name`. */
  predicate FirstNamed(cols: seq<Column>, name: string, k: nat) {
    k < |cols| && cols[k].name == name && forall j :: 0 <= j < k ==> cols[j].name != name
  }

  /** The position of the first column called `name`. */
  function Lookup(cols: seq<Column>, name: string): (r: Option<nat>)
    ensures r.None? <==> name !in Names(cols)
    ensures r.Some? ==> FirstNamed(cols, name, r.value)
  {
    if cols == [] then None
    else if cols[0].name == name then Some(0)
    else match Lookup(cols[1..], name)
      case None => None
      case Some(k) => Some(k + 1)
  }

  /** The column called `name` (the first, should there be several). */
  function ColumnNamed(cols: seq<Column>, name: string): (c: Column)
    requires name in Names(cols)
    ensures c in cols && c.name == name
  {
    cols[Lookup(cols, name).value]
  }

  /** `p_table[name]`: the column's values, or KeyError. */
  function GetColumn(f: Frame, name: string): (r: Result<seq<nat>>)
    ensures r.Err? <==> name !in Names(f.columns)
    ensures r.Err? ==> r.error == MissingColumn(name)
    ensures r.Ok? ==> r.value == ColumnNamed(f.columns, name).values
  {
    match Lookup(f.columns, name)
    case None => Err(MissingColumn(name))
    case Some(k) => Ok(f.columns[k].values)
  }

  /** `p_table[name] = values`: overwrite the column of that name in place,
      or add it as the last column. */
  function SetColumn(f: Frame, name: string, values: seq<nat>): (g: Frame)
    requires WellFormed(f) && |values| == |f.index|
    ensures WellFormed(g) && g.index == f.index
    ensures name !in Names(f.columns) ==> g.columns == f.columns + [Column(name, values)]
    ensures name in Names(f.columns) ==>
      Names(g.columns) == Names(f.columns) &&
      exists k: nat :: FirstNamed(f.columns, name, k) && g.columns == f.columns[k := Column(name, values)]
  {
    match Lookup(f.columns, name)
    case None => Frame(f.index, f.columns + [Column(name, values)])
    case Some(k) => Frame(f.index, f.columns[k := Column(name, values)])
  }

  /** The columns whose name is not in `names`, in order. */
  function KeepColumns(cols: seq<Column>, names: seq<string>): (r: seq<Column>)
    ensures forall c :: c in r <==> c in cols && c.name !in names
    ensures Names(r) == Without(Names(cols), names)
  {
    if cols == [] then []
    else
      NamesTail(cols);
      if cols[0].name in names then KeepColumns(cols[1..], names)
      else
        NamesCons(cols[0], KeepColumns(cols[1..], names));
        [cols[0]] + KeepColumns(cols[1..], names)
  }

  /** A kept last column stays last. */
  lemma {:induction false} KeepLast(cols: seq<Column>, names: seq<string>)
    requires |cols| > 0 && cols[|cols| - 1].name !in names
    ensures var r := KeepColumns(cols, names); |r| > 0 && r[|r| - 1] == cols[|cols| - 1]
  {
    var t := cols[1..];
    if t == [] {
      assert KeepColumns(t, names) == [];
      assert KeepColumns(cols, names) == [cols[0]];
    } else {
      KeepLast(t, names);
      assert t[|t| - 1] == cols[|cols| - 1];
      var kt := KeepColumns(t, names);
      if cols[0].name in names {
        assert KeepColumns(cols, names) == kt;
      } else {
        assert KeepColumns(cols, names) == [cols[0]] + kt;
      }
    }
  }

  /** `p_table.drop(columns=names, inplace=True)`: KeyError when one of the
      names is not a column. */
  function DropColumns(f: Frame, names: seq<string>): (r: Result<Frame>)
    requires WellFormed(f)
    ensures r.Ok? <==> forall n :: n in names ==> n in Names(f.columns)
    ensures r.Ok? ==> r.value == Frame(f.index, KeepColumns(f.columns, names)) && WellFormed(r.value)
    ensures r.Err? ==> r.error.MissingColumn? && r.error.name in names && r.error.name !in Names(f.columns)
  {
    var missing := Without(names, Names(f.columns));
    if missing == [] then
      Ok(Frame(f.index, KeepColumns(f.columns, names)))
    else
      assert missing[0] in missing;
      Err(MissingColumn(missing[0]))
  }

  /** `eval('p_table["a"] + p_table["b"] + ...')`: the cell-wise sum of the named
      columns, evaluated left to right, or KeyError at the first missing one. */
  function SumColumns(f: Frame, names: seq<string>): (r: Result<seq<nat>>)
    requires WellFormed(f) && names != []
    ensures r.Ok? ==> |r.value| == |f.index|
    decreases |names|
  {
    if |names| == 1 then GetColumn(f, names[0])
    else
      match SumColumns(f, names[..|names| - 1])
      case Err(e) => Err(e)
      case Ok(left) =>
        match GetColumn(f, names[|names| - 1])
        case Err(e) => Err(e)
        case Ok(right) => Ok(Add(left, right))
  }

  /** Row `i` of each named column. */
  function CellsOf(cols: seq<Column>, names: seq<string>, i: nat): (r: seq<nat>)
    requires forall n :: n in names ==> n in Names(cols)
    requires forall k :: 0 <= k < |cols| ==> i < |cols[k].values|
    ensures |r| == |names|
  {
    seq(|names|, j requires 0 <= j < |names| => ColumnNamed(cols, names[j]).values[i])
  }

  /** The sum succeeds exactly when every named column exists, and then each
      cell is the sum of that row's cells in the named columns. */
  lemma {:induction false} SumColumnsCells(f: Frame, names: seq<string>)
    requires WellFormed(f) && names != []
    ensures SumColumns(f, names).Ok? <==> forall n :: n in names ==> n in Names(f.columns)
    ensures SumColumns(f, names).Ok? ==> forall i :: 0 <= i < |f.index| ==>
      SumColumns(f, names).value[i] == Sum(CellsOf(f.columns, names, i))
    decreases |names|
  {
    if |names| == 1 {
      SumColumnsOne(f, names);
    } else {
      SumColumnsCells(f, names[..|names| - 1]);
      SumColumnsStep(f, names);
    }
  }

  lemma SumColumnsOne(f: Frame, names: seq<string>)
    requires WellFormed(f) && |names| == 1
    ensures SumColumns(f, names).Ok? <==> forall n :: n in names ==> n in Names(f.columns)
    ensures SumColumns(f, names).Ok? ==> forall i :: 0 <= i < |f.index| ==>
      SumColumns(f, names).value[i] == Sum(CellsOf(f.columns, names, i))
  {
    forall i | 0 <= i < |f.index| && SumColumns(f, names).Ok?
      ensures SumColumns(f, names).value[i] == Sum(CellsOf(f.columns, names, i))
    {
      assert CellsOf(f.columns, names, i)[..0] == [];
    }
  }

  /** The step of `SumColumnsCells`: one more name. */
  lemma SumColumnsStep(f: Frame, names: seq<string>)
    requires WellFormed(f) && |names| > 1
    requires var p := names[..|names| - 1];
      (SumColumns(f, p).Ok? <==> forall n :: n in p ==> n in Names(f.columns)) &&
      (SumColumns(f, p).Ok? ==> forall i :: 0 <= i < |f.index| ==>
        SumColumns(f, p).value[i] == Sum(CellsOf(f.columns, p, i)))
    ensures SumColumns(f, names).Ok? <==> forall n :: n in names ==> n in Names(f.columns)
    ensures SumColumns(f, names).Ok? ==> forall i :: 0 <= i < |f.index| ==>
      SumColumns(f, names).value[i] == Sum(CellsOf(f.columns, names, i))
  {
    var n := |names|;
    var p := names[..n - 1];
    var last := names[n - 1];
    AllInSnoc(names, Names(f.columns));
    if SumColumns(f, names).Ok? {
      var left := SumColumns(f, p).value;
      var right := GetColumn(f, last).value;
      assert SumColumns(f, names).value == Add(left, right);
      forall i | 0 <= i < |f.index| ensures SumColumns(f, names).value[i] == Sum(CellsOf(f.columns, names, i)) {
        CellsStep(f, names, i);
      }
    }
  }

  /** All of a list is in `pool` exactly when all but its last element are
      and its last element is. */
  lemma AllInSnoc(s: seq<string>, pool: seq<string>)
    requires |s| > 0
    ensures (forall x :: x in s ==> x in pool) <==>
      (forall x :: x in s[..|s| - 1] ==> x in pool) && s[|s| - 1] in pool
  {
    assert s == s[..|s| - 1] + [s[|s| - 1]];
  }

  /** A row's cells over one more name sum to the earlier sum plus that cell. */
  lemma CellsStep(f: Frame, names: seq<string>, i: nat)
    requires WellFormed(f) && |names| > 1 && i < |f.index|
    requires forall x :: x in names ==> x in Names(f.columns)
    ensures var p := names[..|names| - 1];
      Sum(CellsOf(f.columns, names, i)) ==
      Sum(CellsOf(f.columns, p, i)) + ColumnNamed(f.columns, names[|names| - 1]).values[i]
  {
    var c := CellsOf(f.columns, names, i);
    assert c[..|names| - 1] == CellsOf(f.columns, names[..|names| - 1], i);
  }

  // ---- grouping ----

  /** The reference value of a bucket column: in each row, the sum of its
      members' cells (no members: all zero). */
  function BucketValues(f: Frame, members: seq<string>): (v: seq<nat>)
    requires WellFormed(f) && forall n :: n in members ==> n in Names(f.columns)
    ensures |v| == |f.index|
  {
    seq(|f.index|, i requires 0 <= i < |f.index| => Sum(CellsOf(f.columns, members, i)))
  }

  /** One bucket of the loop over the legend: a non-empty bucket becomes the sum
      of its members and the members are dropped; an empty one becomes 0. */
  function GroupBucket(f: Frame, b: Bucket): (r: Result<Frame>)
    requires WellFormed(f)
    ensures r.Ok? ==> WellFormed(r.value) && r.value.index == f.index
  {
    if |b.members| > 0 then
      match SumColumns(f, b.members)
      case Err(e) => Err(e)
      case Ok(v) => DropColumns(SetColumn(f, b.name, v), b.members)
    else Ok(SetColumn(f, b.name, Zeros(|f.index|)))
  }

  /** The whole loop over the legend, stopping at the first KeyError. */
  function GroupAll(f: Frame, legend: seq<Bucket>): (r: Result<Frame>)
    requires WellFormed(f)
    ensures r.Ok? ==> WellFormed(r.value) && r.value.index == f.index
  {
    if legend == [] then Ok(f)
    else
      match GroupAll(f, legend[..|legend| - 1])
      case Err(e) => Err(e)
      case Ok(g) => GroupBucket(g, legend[|legend| - 1])
  }

  /** All members of all buckets. */
  function AllMembers(legend: seq<Bucket>): (r: seq<string>)
    ensures forall n :: n in r <==> exists k :: 0 <= k < |legend| && n in legend[k].members
  {
    if legend == [] then []
    else
      var p := legend[..|legend| - 1];
      assert forall k :: 0 <= k < |p| ==> p[k] == legend[k];
      AllMembers(p) + legend[|legend| - 1].members
  }

  function BucketColumns(f: Frame, legend: seq<Bucket>): (r: seq<Column>)
    requires WellFormed(f) && forall n :: n in AllMembers(legend) ==> n in Names(f.columns)
    ensures |r| == |legend| && forall k :: 0 <= k < |legend| ==> r[k].name == legend[k].name
  {
    seq(|legend|, k requires 0 <= k < |legend| => Column(legend[k].name, BucketValues(f, legend[k].members)))
  }

  /** What the legend may rely on in the table it groups: its members are
      columns, bucket names are new and distinct, buckets share no member. */
  ghost predicate LegendFits(f: Frame, legend: seq<Bucket>) {
    Distinct(Names(f.columns)) &&
    (forall k, n :: 0 <= k < |legend| && n in legend[k].members ==> n in Names(f.columns)) &&
    (forall k :: 0 <= k < |legend| ==> legend[k].name !in Names(f.columns)) &&
    (forall j, k :: 0 <= j < |legend| && 0 <= k < |legend| ==> legend[j].name !in legend[k].members) &&
    (forall j, k :: 0 <= j < k < |legend| ==> legend[j].name != legend[k].name) &&
    (forall j, k, n :: 0 <= j < k < |legend| && n in legend[j].members ==> n !in legend[k].members)
  }

  /** The members of a fitting legend are columns of the table. */
  lemma FitsMembers(f: Frame, legend: seq<Bucket>)
    requires LegendFits(f, legend)
    ensures forall n :: n in AllMembers(legend) ==> n in Names(f.columns)
  {
  }

  lemma {:induction false} KeepColumnsAppend(a: seq<Column>, b: seq<Column>, names: seq<string>)
    ensures KeepColumns(a + b, names) == KeepColumns(a, names) + KeepColumns(b, names)
  {
    if a == [] {
      assert a + b == b;
    } else {
      assert (a + b)[1..] == a[1..] + b;
      KeepColumnsAppend(a[1..], b, names);
    }
  }

  lemma {:induction false} KeepColumnsTwice(cols: seq<Column>, a: seq<string>, b: seq<string>)
    ensures KeepColumns(KeepColumns(cols, a), b) == KeepColumns(cols, a + b)
  {
    if cols != [] {
      KeepColumnsTwice(cols[1..], a, b);
    }
  }

  lemma {:induction false} KeepColumnsNone(cols: seq<Column>, names: seq<string>)
    requires forall k :: 0 <= k < |cols| ==> cols[k].name !in names
    ensures KeepColumns(cols, names) == cols
  {
    if cols != [] {
      KeepColumnsNone(cols[1..], names);
      assert [cols[0]] + cols[1..] == cols;
    }
  }

  /** With distinct names, a column is the one its name looks up. */
  lemma {:induction false} ColumnNamedIs(cols: seq<Column>, c: Column)
    requires Distinct(Names(cols)) && c in cols
    ensures ColumnNamed(cols, c.name) == c
  {
    var k :| 0 <= k < |cols| && cols[k] == c;
    var j := Lookup(cols, c.name).value;
    assert Names(cols)[j] == Names(cols)[k];
  }

  /** The tables before and after a step agree on the columns of `names`. */
  lemma SameCells(f: Frame, g: Frame, names: seq<string>)
    requires WellFormed(f) && WellFormed(g) && f.index == g.index
    requires Distinct(Names(f.columns)) && Distinct(Names(g.columns))
    requires forall n :: n in names ==> n in Names(f.columns) && n in Names(g.columns)
    requires forall c :: c in g.columns && c.name in names ==> c in f.columns
    ensures BucketValues(g, names) == BucketValues(f, names)
  {
    forall n | n in names ensures ColumnNamed(g.columns, n) == ColumnNamed(f.columns, n) {
      ColumnNamedIs(f.columns, ColumnNamed(g.columns, n));
    }
    forall i | 0 <= i < |f.index| ensures CellsOf(g.columns, names, i) == CellsOf(f.columns, names, i) {
    }
  }

  /** One non-clashing bucket: the members are dropped and the bucket's column,
      holding their cell-wise sum, is added last. */
  lemma GroupBucketShape(f: Frame, b: Bucket)
    requires WellFormed(f) && Distinct(Names(f.columns))
    requires forall n :: n in b.members ==> n in Names(f.columns)
    requires b.name !in Names(f.columns) && b.name !in b.members
    ensures GroupBucket(f, b) == Ok(Frame(f.index, KeepColumns(f.columns, b.members) + [Column(b.name, BucketValues(f, b.members))]))
  {
    if |b.members| > 0 {
      FilledBucketShape(f, b);
    } else {
      EmptyBucketShape(f, b);
    }
  }

  lemma FilledBucketShape(f: Frame, b: Bucket)
    requires WellFormed(f) && |b.members| > 0
    requires forall n :: n in b.members ==> n in Names(f.columns)
    requires b.name !in Names(f.columns) && b.name !in b.members
    ensures GroupBucket(f, b) == Ok(Frame(f.index, KeepColumns(f.columns, b.members) + [Column(b.name, BucketValues(f, b.members))]))
  {
    var bc := Column(b.name, BucketValues(f, b.members));
    SumColumnsCells(f, b.members);
    var v := SumColumns(f, b.members).value;
    assert v == BucketValues(f, b.members);
    var g := SetColumn(f, b.name, v);
    assert g.columns == f.columns + [bc];
    assert Names(g.columns) == Names(f.columns) + [b.name];
    assert DropColumns(g, b.members) == Ok(Frame(f.index, KeepColumns(g.columns, b.members)));
    KeepColumnsAppend(f.columns, [bc], b.members);
    KeepColumnsNone([bc], b.members);
  }

  /** An empty bucket becomes an all-zero column and nothing is dropped. */
  lemma EmptyBucketShape(f: Frame, b: Bucket)
    requires WellFormed(f) && b.members == [] && b.name !in Names(f.columns)
    ensures GroupBucket(f, b) == Ok(Frame(f.index, KeepColumns(f.columns, b.members) + [Column(b.name, BucketValues(f, b.members))]))
    ensures BucketValues(f, b.members) == Zeros(|f.index|)
  {
    KeepColumnsNone(f.columns, b.members);
    var v := BucketValues(f, b.members);
    forall i | 0 <= i < |f.index| ensures v[i] == 0 {
      assert CellsOf(f.columns, b.members, i) == [];
    }
    assert v == Zeros(|f.index|);
    assert GroupBucket(f, b) == Ok(SetColumn(f, b.name, Zeros(|f.index|)));
  }

  /** Grouping by a fitting legend drops every member column, keeps every other
      column (the "All" margin and unbucketed resolutions among them) unchanged
      and in order, and appends one column per bucket, in legend order, holding
      the cell-wise sum of its members (all zero for a bucket with none). */
  lemma {:induction false} GroupAllShape(f: Frame, legend: seq<Bucket>)
    requires WellFormed(f) && LegendFits(f, legend)
    ensures GroupAll(f, legend) == Ok(Frame(f.index, KeepColumns(f.columns, AllMembers(legend)) + BucketColumns(f, legend)))
  {
    var n := |legend|;
    if n == 0 {
      KeepColumnsNone(f.columns, []);
      assert f.columns + BucketColumns(f, legend) == f.columns;
    } else {
      var p := legend[..n - 1];
      var b := legend[n - 1];
      LegendFitsPrefix(f, legend);
      GroupAllShape(f, p);
      GroupAllStep(f, p, b, legend);
    }
  }

  /** A fitting legend without its last bucket still fits, and the last bucket
      is new to the rest. */
  lemma LegendFitsPrefix(f: Frame, legend: seq<Bucket>)
    requires WellFormed(f) && LegendFits(f, legend) && legend != []
    ensures var p := legend[..|legend| - 1]; var b := legend[|legend| - 1];
      LegendFits(f, p) && legend == p + [b] &&
      (forall x :: x in b.members ==> x in Names(f.columns) && x !in AllMembers(p)) &&
      b.name !in Names(f.columns) && b.name !in AllMembers(p) + b.members &&
      (forall k :: 0 <= k < |p| ==> p[k].name != b.name)
  {
    var n := |legend|;
    var p := legend[..n - 1];
    var b := legend[n - 1];
    assert forall k :: 0 <= k < |p| ==> p[k] == legend[k];
    assert b.name !in AllMembers(p) + b.members;
  }

  /** The induction step of `GroupAllShape`: one more bucket. */
  lemma GroupAllStep(f: Frame, p: seq<Bucket>, b: Bucket, legend: seq<Bucket>)
    requires WellFormed(f) && LegendFits(f, p) && legend == p + [b]
    requires GroupAll(f, p) == Ok(Frame(f.index, KeepColumns(f.columns, AllMembers(p)) + BucketColumns(f, p)))
    requires forall x :: x in b.members ==> x in Names(f.columns) && x !in AllMembers(p)
    requires b.name !in Names(f.columns) && b.name !in AllMembers(p) + b.members
    requires forall k :: 0 <= k < |p| ==> p[k].name != b.name
    ensures forall x :: x in AllMembers(legend) ==> x in Names(f.columns)
    ensures GroupAll(f, legend) == Ok(Frame(f.index, KeepColumns(f.columns, AllMembers(legend)) + BucketColumns(f, legend)))
  {
    assert legend[..|legend| - 1] == p;
    var kept := KeepColumns(f.columns, AllMembers(p));
    var bcs := BucketColumns(f, p);
    var g := Frame(f.index, kept + bcs);
    StepFits(f, p, b, g);
    GroupBucketShape(g, b);
    assert GroupAll(f, legend) == GroupBucket(g, b);
    StepKeeps(f.columns, AllMembers(p), bcs, b.members);
    SameCells(f, g, b.members);
    BucketColumnsSnoc(f, p, b);
    var rest := KeepColumns(f.columns, AllMembers(p) + b.members);
    var col := Column(b.name, BucketValues(f, b.members));
    assert KeepColumns(g.columns, b.members) + [Column(b.name, BucketValues(g, b.members))] == (rest + bcs) + [col];
    AppendAssoc(rest, bcs, [col]);
  }

  lemma AppendAssoc(a: seq<Column>, b: seq<Column>, c: seq<Column>)
    ensures (a + b) + c == a + (b + c)
  {
  }

  /** The table after the first buckets meets `GroupBucketShape`'s demands. */
  lemma StepFits(f: Frame, p: seq<Bucket>, b: Bucket, g: Frame)
    requires WellFormed(f) && LegendFits(f, p)
    requires g == Frame(f.index, KeepColumns(f.columns, AllMembers(p)) + BucketColumns(f, p))
    requires forall x :: x in b.members ==> x in Names(f.columns) && x !in AllMembers(p)
    requires b.name !in Names(f.columns) && b.name !in AllMembers(p) + b.members
    requires forall k :: 0 <= k < |p| ==> p[k].name != b.name
    ensures WellFormed(g) && Distinct(Names(g.columns))
    ensures forall n :: n in b.members ==> n in Names(g.columns)
    ensures b.name !in Names(g.columns) && b.name !in b.members
    ensures forall c :: c in g.columns && c.name in b.members ==> c in f.columns
  {
    var kept := KeepColumns(f.columns, AllMembers(p));
    var bcs := BucketColumns(f, p);
    assert Names(g.columns) == Names(kept) + Names(bcs);
    NamesDistinct(f, p, kept, bcs);
    assert forall x :: x in b.members ==> x in Names(kept);
    assert b.name !in Names(kept);
    assert forall c :: c in bcs ==> c.name !in b.members;
  }

  lemma StepKeeps(cols: seq<Column>, a: seq<string>, bcs: seq<Column>, ms: seq<string>)
    requires forall k :: 0 <= k < |bcs| ==> bcs[k].name !in ms
    ensures KeepColumns(KeepColumns(cols, a) + bcs, ms) == KeepColumns(cols, a + ms) + bcs
  {
    KeepColumnsAppend(KeepColumns(cols, a), bcs, ms);
    KeepColumnsTwice(cols, a, ms);
    KeepColumnsNone(bcs, ms);
  }

  lemma BucketColumnsSnoc(f: Frame, p: seq<Bucket>, b: Bucket)
    requires WellFormed(f) && forall x :: x in AllMembers(p + [b]) ==> x in Names(f.columns)
    ensures AllMembers(p + [b]) == AllMembers(p) + b.members
    ensures BucketColumns(f, p + [b]) == BucketColumns(f, p) + [Column(b.name, BucketValues(f, b.members))]
  {
    assert (p + [b])[..|p|] == p;
  }

  lemma NamesDistinct(f: Frame, p: seq<Bucket>, kept: seq<Column>, bcs: seq<Column>)
    requires LegendFits(f, p) && WellFormed(f)
    requires kept == KeepColumns(f.columns, AllMembers(p))
    requires |bcs| == |p| && forall k :: 0 <= k < |bcs| ==> bcs[k].name == p[k].name
    ensures Distinct(Names(kept) + Names(bcs))
  {
    WithoutSubsequence(Names(f.columns), AllMembers(p));
    SubsequenceDistinct(Names(kept), Names(f.columns));
    assert Distinct(Names(bcs));
    DistinctAppend(Names(kept), Names(bcs));
  }

  lemma DistinctAppend(a: seq<string>, b: seq<string>)
    requires Distinct(a) && Distinct(b) && forall x :: x in a ==> x !in b
    ensures Distinct(a + b)
  {
    forall i, j | 0 <= i < j < |a + b| ensures (a + b)[i] != (a + b)[j] {
      if i < |a| <= j {
        assert (a + b)[i] in a && (a + b)[j] in b;
      }
    }
  }

  lemma {:induction false} WithoutSubsequence(s: seq<string>, d: seq<string>)
    ensures Subsequence(Without(s, d), s)
  {
    if s != [] {
      WithoutSubsequence(s[1..], d);
      if s[0] !in d {
        assert ([s[0]] + Without(s[1..], d))[1..] == Without(s[1..], d);
      }
    }
  }

  /** One more bucket of the loop: the grouping so far, then that bucket. */
  lemma GroupAllSnoc(f: Frame, legend: seq<Bucket>, k: nat)
    requires WellFormed(f) && k < |legend| && GroupAll(f, legend[..k]).Ok?
    ensures GroupAll(f, legend[..k + 1]) == GroupBucket(GroupAll(f, legend[..k]).value, legend[k])
  {
    assert legend[..k + 1][..k] == legend[..k];
  }

  /** A failed step fails the whole loop: KeyError propagates. */
  lemma {:induction false} GroupAllErrPrefix(f: Frame, legend: seq<Bucket>, k: nat)
    requires WellFormed(f) && k <= |legend| && GroupAll(f, legend[..k]).Err?
    ensures GroupAll(f, legend) == GroupAll(f, legend[..k])
    decreases |legend| - k
  {
    if k < |legend| {
      assert legend[..k + 1][..k] == legend[..k];
      GroupAllErrPrefix(f, legend, k + 1);
    } else {
      assert legend[..k] == legend;
    }
  }

  // ---- reversal ----

  function Reversed(s: seq<Column>): (r: seq<Column>)
    ensures |r| == |s|
  {
    if s == [] then [] else Reversed(s[1..]) + [s[0]]
  }

  lemma {:induction false} ReversedAt(s: seq<Column>, k: nat)
    requires k < |s|
    ensures Reversed(s)[k] == s[|s| - 1 - k]
  {
    if k < |s| - 1 {
      ReversedAt(s[1..], k);
    }
  }

  /** `p_table[p_table.columns.tolist()[::-1]]`. */
  function ReverseColumns(f: Frame): (g: Frame)
    requires WellFormed(f)
    ensures WellFormed(g) && g.index == f.index
  {
    var g := Frame(f.index, Reversed(f.columns));
    forall k | 0 <= k < |g.columns| ensures |g.columns[k].values| == |f.index| {
      ReversedAt(f.columns, k);
    }
    g
  }

  /** Reversal only reorders: the same columns with the same values, in exactly
      the opposite order. */
  lemma ReverseColumnsPermutes(f: Frame)
    requires WellFormed(f)
    ensures var g := ReverseColumns(f);
      |g.columns| == |f.columns| &&
      (forall k :: 0 <= k < |f.columns| ==> g.columns[k] == f.columns[|f.columns| - 1 - k]) &&
      multiset(g.columns) == multiset(f.columns)
  {
    forall k | 0 <= k < |f.columns| ensures ReverseColumns(f).columns[k] == f.columns[|f.columns| - 1 - k] {
      ReversedAt(f.columns, k);
    }
    ReversedMultiset(f.columns);
  }

  lemma {:induction false} ReversedMultiset(s: seq<Column>)
    ensures multiset(Reversed(s)) == multiset(s)
  {
    if s != [] {
      ReversedMultiset(s[1..]);
      assert s == [s[0]] + s[1..];
    }
  }

  // ---- the table the grouping loop updates in place ----

  class PivotTable {
    var index: seq<string>
    var columns: seq<Column>

    function View(): Frame
      reads this
    {
      Frame(index, columns)
    }

    ghost predicate Valid()
      reads this
    {
      WellFormed(View())
    }

    constructor (f: Frame)
      requires WellFormed(f)
      ensures Valid() && View() == f
    {
      index := f.index;
      columns := f.columns;
    }

    /** `p_table[name] = values`. */
    method Assign(name: string, values: seq<nat>)
      requires Valid() && |values| == |index|
      modifies this
      ensures Valid() && View() == SetColumn(old(View()), name, values)
    {
      var g := SetColumn(View(), name, values);
      index, columns := g.index, g.columns;
    }

    /** `p_table.drop(columns=names, inplace=True)`; on KeyError nothing changes. */
    method Drop(names: seq<string>) returns (err: Option<Error>)
      requires Valid()
      modifies this
      ensures Valid()
      ensures DropColumns(old(View()), names).Ok? ==> err.None? && View() == DropColumns(old(View()), names).value
      ensures DropColumns(old(View()), names).Err? ==> err == Some(DropColumns(old(View()), names).error) && View() == old(View())
    {
      match DropColumns(View(), names)
      case Err(e) =>
        err := Some(e);
      case Ok(g) =>
        index, columns := g.index, g.columns;
        err := None;
    }

    /** Lines 125-134: for each bucket, assign the sum of its members and drop
        them, or assign 0 to an empty bucket. A KeyError ends the loop. */
    method GroupColumns(legend: seq<Bucket>) returns (err: Option<Error>)
      requires Valid()
      modifies this
      ensures Valid()
      ensures err.None? ==> GroupAll(old(View()), legend) == Ok(View())
      ensures err.Some? ==> GroupAll(old(View()), legend) == Err(err.value)
    {
      ghost var start := View();
      var k := 0;
      while k < |legend|
        invariant 0 <= k <= |legend| && Valid()
        invariant GroupAll(start, legend[..k]) == Ok(View())
      {
        GroupAllSnoc(start, legend, k);
        var b := legend[k];
        if |b.members| > 0 {
          var sum := SumColumns(View(), b.members);
          if sum.Err? {
            GroupAllErrPrefix(start, legend, k + 1);
            return Some(sum.error);
          }
          Assign(b.name, sum.value);
          err := Drop(b.members);
          if err.Some? {
            GroupAllErrPrefix(start, legend, k + 1);
            return;
          }
        } else {
          Assign(b.name, Zeros(|index|));
        }
        k := k + 1;
      }
      assert legend[..k] == legend;
      err := None;
    }
  }
}

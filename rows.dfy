/** Relabelling the pivot's rows by the team rules and merging rows that end
    up with the same label:
    `reset_index().replace({'Component/s': pattern}, {'Component/s': target},
    regex=True).groupby('Component/s', sort=False).sum()`. */
module Rows {
  import opened Seqs
  import opened Strings
  import opened Outcomes
  import opened Pivot

  // ---- one rule ----

  /** The pattern `.*(?=.*?first)(?=.*?second)(?!.*(x1|x2|...)).*` with the
      excluded alternatives `excluded`, and the label that replaces a match. */
  datatype Rule = Rule(first: string, second: string, excluded: seq<string>, target: string)

  /** The negative lookahead at position `p`: no excluded marker starts at
      or after `p`. */
  predicate Clear(s: string, excluded: seq<string>, p: nat) {
    forall k :: 0 <= k < |excluded| ==> !OccursFrom(s, excluded[k], p)
  }

  /** All three lookaheads succeed at position `p`. */
  predicate HoldsAt(s: string, r: Rule, p: nat) {
    OccursFrom(s, r.first, p) && OccursFrom(s, r.second, p) && Clear(s, r.excluded, p)
  }

  /** The leading `.*` can end at some position from `p` on where the
      lookaheads succeed; the trailing `.*` then runs to the end of the label.
      A match found from a later start position would also be found from
      position 0, so the search from 0 decides whether the label is rewritten. */
  predicate MatchFrom(s: string, r: Rule, p: nat)
    decreases |s| - p
  {
    p <= |s| && (HoldsAt(s, r, p) || MatchFrom(s, r, p + 1))
  }

  predicate Matches(s: string, r: Rule) {
    MatchFrom(s, r, 0)
  }

  /** `re.sub` of the pattern over a label (labels hold no line breaks): the
      match covers the whole label, which becomes the target. */
  function Relabel(s: string, r: Rule): (l: string)
    ensures l == s || l == r.target
  {
    if Matches(s, r) then r.target else s
  }

  // ---- what the pattern tests ----

  /** The last position at which `m` starts, or -1. */
  function Reach(s: string, m: string): (n: int)
    ensures -1 <= n <= |s|
  {
    match LastStart(s, m)
    case None => -1
    case Some(i) => i
  }

  /** The first position from which no excluded marker occurs any more. */
  function ClearFrom(s: string, excluded: seq<string>): nat {
    if excluded == [] then 0
    else
      var c := ClearFrom(s, excluded[..|excluded| - 1]);
      var e := Reach(s, excluded[|excluded| - 1]) + 1;
      if c < e then e else c
  }

  lemma {:induction false} ClearIff(s: string, excluded: seq<string>, p: nat)
    ensures Clear(s, excluded, p) <==> ClearFrom(s, excluded) <= p
  {
    if excluded != [] {
      var n := |excluded|;
      var q := excluded[..n - 1];
      assert forall k :: 0 <= k < n - 1 ==> q[k] == excluded[k];
      ClearIff(s, q, p);
      OccursFromLast(s, excluded[n - 1], p);
      assert Clear(s, excluded, p) <==> Clear(s, q, p) && !OccursFrom(s, excluded[n - 1], p);
    }
  }

  lemma {:induction false} MatchFromIff(s: string, r: Rule, p: nat)
    ensures MatchFrom(s, r, p) <==>
      p <= Reach(s, r.first) && p <= Reach(s, r.second) &&
      ClearFrom(s, r.excluded) <= Reach(s, r.first) && ClearFrom(s, r.excluded) <= Reach(s, r.second)
    decreases |s| - p
  {
    if p <= |s| {
      OccursFromLast(s, r.first, p);
      OccursFromLast(s, r.second, p);
      ClearIff(s, r.excluded, p);
      MatchFromIff(s, r, p + 1);
    }
  }

  /** A label is rewritten exactly when both required names occur and every
      excluded marker is absent from some position before the last start of
      each required name on: an excluded marker blocks the rewrite only if it
      occurs after the last occurrence of one of the required names begins. */
  lemma MatchesIff(s: string, r: Rule)
    ensures Matches(s, r) <==>
      ClearFrom(s, r.excluded) <= Reach(s, r.first) && ClearFrom(s, r.excluded) <= Reach(s, r.second)
  {
    MatchFromIff(s, r, 0);
  }

  /** `m` occurs somewhere in `s`. */
  predicate Occurs(s: string, m: string) {
    OccursFrom(s, m, 0)
  }

  /** A label holding both required names and none of the excluded ones is
      rewritten to the target. */
  lemma RelabelRewritesClean(s: string, r: Rule)
    requires Occurs(s, r.first) && Occurs(s, r.second)
    requires forall k :: 0 <= k < |r.excluded| ==> !Occurs(s, r.excluded[k])
    ensures Relabel(s, r) == r.target
  {
    assert HoldsAt(s, r, 0);
  }

  /** A label lacking one of the required names is left as it is. */
  lemma {:induction false} RelabelNeedsBoth(s: string, r: Rule)
    requires !Occurs(s, r.first) || !Occurs(s, r.second)
    ensures Relabel(s, r) == s
  {
    MatchesIff(s, r);
    OccursFromLast(s, r.first, 0);
    OccursFromLast(s, r.second, 0);
  }

  /** The "All" margin row is never rewritten by a rule whose first name is
      longer than "All". */
  lemma RelabelSparesMargin(r: Rule)
    requires |r.first| > |Margin|
    ensures Relabel(Margin, r) == Margin
  {
    MatchesIff(Margin, r);
    OccursFromLast(Margin, r.first, 0);
    NoRoomFrom(Margin, r.first, 0);
  }

  // ---- the rules, in the order the report applies them ----

  function TeamOneRule(name: string, others: seq<string>): Rule {
    Rule(name, "Team1", ["Team2"] + others, name)
  }

  function TeamTwoRule(name: string, target: string): Rule {
    Rule(name, "Team2", ["Team1"], target)
  }

  /** The Team1 rules: each database alone with Team1, then Service-Fabrik. */
  const TeamOneRules: seq<Rule> := [
    TeamOneRule("PostgreSQL", ["RabbitMQ", "MongoDB", "Redis"]),
    TeamOneRule("Redis", ["PostgreSQL", "MongoDB", "RabbitMQ"]),
    TeamOneRule("RabbitMQ", ["PostgreSQL", "MongoDB", "Redis"]),
    TeamOneRule("MongoDB", ["PostgreSQL", "RabbitMQ", "Redis"]),
    Rule("Service-Fabrik", "Team1", ["Team2"], "Team1")
  ]

  /** The Team2 rules for its four named areas. */
  const TeamTwoRules: seq<Rule> := [
    TeamTwoRule("Authentication", "Authentication"),
    TeamTwoRule("Infrastructure", "Infrastructure"),
    TeamTwoRule("Runtime", "Runtime"),
    TeamTwoRule("BOSH", "BOSH")
  ]

  /** `se_core_list`: components whose rows are merged into Team2. */
  const SeCoreList: seq<string> := ["CF-Onboarding Service", "Commercial Infrastructure", "CF-Platform Monitoring",
    "Cloud Engineering", "CF-Routing", "CF-Ops", "CF-AWS", "CF-Cloud Cockpit"]

  function SeCoreRules(): (rs: seq<Rule>)
    ensures |rs| == |SeCoreList| && forall k :: 0 <= k < |SeCoreList| ==> rs[k] == TeamTwoRule(SeCoreList[k], "Team2")
  {
    seq(|SeCoreList|, k requires 0 <= k < |SeCoreList| => TeamTwoRule(SeCoreList[k], "Team2"))
  }

  function AllRules(): seq<Rule> {
    TeamOneRules + TeamTwoRules + SeCoreRules()
  }

  /** A rule that neither touches nor produces the margin label. */
  predicate SparesMargin(r: Rule) {
    |r.first| > |Margin| && r.target != Margin
  }

  lemma AllRulesSpareMargin()
    ensures |AllRules()| == 17
    ensures forall k :: 0 <= k < |AllRules()| ==> SparesMargin(AllRules()[k])
  {
    var se := SeCoreRules();
    forall k | 0 <= k < |se| ensures SparesMargin(se[k]) {
      assert |SeCoreList[k]| > 3;
    }
  }

  // ---- the as-written lookahead at work ----

  /** An issue filed under MongoDB, PostgreSQL and Team1 (components listed
      in that order) is counted as a PostgreSQL issue although its label holds
      an excluded database: the lookaheads are checked after "M", where
      "MongoDB" no longer occurs. */
  lemma ExcludedMarkerBeforeIsIgnored()
    ensures Relabel("MongoDB, PostgreSQL, Team1", TeamOneRules[0]) == "PostgreSQL"
    ensures Occurs("MongoDB, PostgreSQL, Team1", "MongoDB")
  {
    var s := "MongoDB, PostgreSQL, Team1";
    var r := Rule("PostgreSQL", "Team1", ["Team2", "RabbitMQ", "MongoDB", "Redis"], "PostgreSQL");
    assert r == TeamOneRules[0];
    RequiredNamesAfterM(s);
    ExcludedGoneAfterM(s);
    ClearOfFour(s, r.excluded, 1);
    RewrittenFromOne(s, r);
  }

  lemma ClearOfFour(s: string, ex: seq<string>, p: nat)
    requires |ex| == 4 && !OccursFrom(s, ex[0], p) && !OccursFrom(s, ex[1], p)
    requires !OccursFrom(s, ex[2], p) && !OccursFrom(s, ex[3], p)
    ensures Clear(s, ex, p)
  {
  }

  /** When the lookaheads hold after the first character, the label is rewritten. */
  lemma RewrittenFromOne(s: string, r: Rule)
    requires |s| > 0 && HoldsAt(s, r, 1)
    ensures Relabel(s, r) == r.target
  {
    assert MatchFrom(s, r, 1);
  }

  lemma RequiredNamesAfterM(s: string)
    requires s == "MongoDB, PostgreSQL, Team1"
    ensures OccursFrom(s, "PostgreSQL", 1) && OccursFrom(s, "Team1", 1) && Occurs(s, "MongoDB")
  {
    assert s[9..19] == "PostgreSQL";
    assert s[21..26] == "Team1";
    assert s[0..7] == "MongoDB";
    OccursAt(s, "PostgreSQL", 9, 1);
    OccursAt(s, "Team1", 21, 1);
    OccursAt(s, "MongoDB", 0, 0);
  }

  lemma ExcludedGoneAfterM(s: string)
    requires s == "MongoDB, PostgreSQL, Team1"
    ensures !OccursFrom(s, "RabbitMQ", 1) && !OccursFrom(s, "MongoDB", 1) && !OccursFrom(s, "Redis", 1)
    ensures !OccursFrom(s, "Team2", 1)
  {
    var x := "ongoDB, PostgreSQL, ";
    var t := x + "Team1";
    assert s == "M" + t;
    GoneFromTail(t, "RabbitMQ");
    GoneFromTail(t, "MongoDB");
    GoneFromTail(t, "Redis");
    Team2GoneAfterM(s, x);
  }

  /** Neither "R" nor "M" occurs after the first character of the label. */
  lemma GoneFromTail(t: string, m: string)
    requires t == "ongoDB, PostgreSQL, Team1" && |m| > 0 && (m[0] == 'R' || m[0] == 'M')
    ensures !OccursFrom("M" + t, m, 1)
  {
    assert t[0..] == t;
    TailInitials(t);
    AbsentFrom(t, m, 0);
    OccursFromShift("M", t, m, 0);
  }

  lemma TailInitials(t: string)
    requires t == "ongoDB, PostgreSQL, Team1"
    ensures 'R' !in t && 'M' !in t
  {
  }

  lemma Team2GoneAfterM(s: string, x: string)
    requires s == "M" + x + "Team1" && x == "ongoDB, PostgreSQL, "
    ensures !OccursFrom(s, "Team2", 1)
  {
    assert s == "M" + (x + "Team1");
    OccursFromShift("M", x + "Team1", "Team2", 0);
    OccursFromSkip(x, "Team1", "Team2", 0);
    OccursFromShift(x, "Team1", "Team2", 0);
    assert "Team1"[0..5] == "Team1" != "Team2";
    NoRoomFrom("Team1", "Team2", 1);
  }

  /** The test the rules evidently intend: anchored at the start of the label,
      `^(?=.*first)(?=.*second)(?!.*(x1|...))`. */
  function AnchoredRelabel(s: string, r: Rule): (l: string)
    ensures l == s || l == r.target
  {
    if HoldsAt(s, r, 0) then r.target else s
  }

  /** Anchored, any occurrence of an excluded marker keeps the label. */
  lemma AnchoredExcludes(s: string, r: Rule, k: nat, i: nat)
    requires k < |r.excluded| && StartsAt(s, r.excluded[k], i) && s != r.target
    ensures AnchoredRelabel(s, r) == s
  {
    OccursAt(s, r.excluded[k], i, 0);
  }

  /** Anchored, a label is rewritten exactly when both names occur and no
      excluded marker does; the as-written pattern rewrites every such label
      too, and the label above besides. */
  lemma AnchoredRewritesExactly(s: string, r: Rule)
    ensures s != r.target ==> (AnchoredRelabel(s, r) == r.target <==>
      Occurs(s, r.first) && Occurs(s, r.second) && forall k :: 0 <= k < |r.excluded| ==> !Occurs(s, r.excluded[k]))
    ensures HoldsAt(s, r, 0) ==> Relabel(s, r) == AnchoredRelabel(s, r)
    ensures AnchoredRelabel("MongoDB, PostgreSQL, Team1", TeamOneRules[0]) == "MongoDB, PostgreSQL, Team1"
  {
    var s0 := "MongoDB, PostgreSQL, Team1";
    assert s0[0..7] == "MongoDB";
    AnchoredExcludes(s0, TeamOneRules[0], 2, 0);
  }

  // ---- merging rows ----

  /** The row labels after one rule. */
  function RelabelAll(index: seq<string>, r: Rule, anchored: bool): (l: seq<string>)
    ensures |l| == |index|
    ensures forall i :: 0 <= i < |index| ==> l[i] == if anchored then AnchoredRelabel(index[i], r) else Relabel(index[i], r)
  {
    seq(|index|, i requires 0 <= i < |index| => if anchored then AnchoredRelabel(index[i], r) else Relabel(index[i], r))
  }

  /** `groupby(sort=False).sum()` over the row labels `labels`: one row per
      distinct label, in order of first appearance. */
  function MergeRows(f: Frame, labels: seq<string>): (g: Frame)
    requires WellFormed(f) && |labels| == |f.index|
    ensures WellFormed(g) && |g.columns| == |f.columns|
    ensures forall k :: 0 <= k < |f.columns| ==> g.columns[k].name == f.columns[k].name
  {
    var keys := Dedup(labels);
    Frame(keys, seq(|f.columns|, k requires 0 <= k < |f.columns| =>
      Column(f.columns[k].name, GroupSums(labels, f.columns[k].values, keys))))
  }

  /** Merged rows: unique labels, each the label of some original row, in order
      of first appearance, each cell the sum of the cells of the rows carrying
      its label; no count is lost or made up in any column. */
  lemma MergeRowsMeaning(f: Frame, labels: seq<string>)
    requires WellFormed(f) && |labels| == |f.index|
    ensures var g := MergeRows(f, labels);
      Distinct(g.index) && (forall x :: x in g.index <==> x in labels) &&
      (forall i, j :: 0 <= i < j < |g.index| ==> IndexOf(labels, g.index[i]) < IndexOf(labels, g.index[j])) &&
      (forall k, j :: 0 <= k < |g.columns| && 0 <= j < |g.index| ==>
        g.columns[k].values[j] == SumWhere(labels, f.columns[k].values, g.index[j])) &&
      (forall k :: 0 <= k < |g.columns| ==> Sum(g.columns[k].values) == Sum(f.columns[k].values))
  {
    var g := MergeRows(f, labels);
    DedupFirstAppearance(labels);
    forall k | 0 <= k < |g.columns| ensures Sum(g.columns[k].values) == Sum(f.columns[k].values) {
      GroupSumsTotal(labels, f.columns[k].values, Dedup(labels));
    }
  }

  /** One rule: relabel, then merge. */
  function Step(f: Frame, r: Rule, anchored: bool): (g: Frame)
    requires WellFormed(f)
    ensures WellFormed(g) && Names(g.columns) == Names(f.columns)
  {
    MergeRows(f, RelabelAll(f.index, r, anchored))
  }

  /** The rules applied one after another. */
  function ApplyRules(f: Frame, rules: seq<Rule>, anchored: bool): (g: Frame)
    requires WellFormed(f)
    ensures WellFormed(g) && Names(g.columns) == Names(f.columns)
  {
    if rules == [] then f
    else Step(ApplyRules(f, rules[..|rules| - 1], anchored), rules[|rules| - 1], anchored)
  }

  lemma {:induction false} ApplyRulesAppend(f: Frame, a: seq<Rule>, b: seq<Rule>, anchored: bool)
    requires WellFormed(f)
    ensures ApplyRules(f, a + b, anchored) == ApplyRules(ApplyRules(f, a, anchored), b, anchored)
  {
    if b == [] {
      assert a + b == a;
    } else {
      assert (a + b)[..|a + b| - 1] == a + b[..|b| - 1];
      ApplyRulesAppend(f, a, b[..|b| - 1], anchored);
    }
  }

  /** One more rule: the rules so far, then that rule's step. */
  lemma ApplyRulesSnoc(f: Frame, rules: seq<Rule>, k: nat, anchored: bool)
    requires WellFormed(f) && k < |rules|
    ensures ApplyRules(f, rules[..k + 1], anchored) == Step(ApplyRules(f, rules[..k], anchored), rules[k], anchored)
  {
    assert rules[..k + 1][..k] == rules[..k];
  }

  /** The loop over `se_core_list`, building each rule from the component name. */
  method MergeSeCore(f: Frame, anchored: bool) returns (g: Frame)
    requires WellFormed(f)
    ensures g == ApplyRules(f, SeCoreRules(), anchored)
  {
    g := f;
    var k := 0;
    while k < |SeCoreList|
      invariant 0 <= k <= |SeCoreList|
      invariant g == ApplyRules(f, SeCoreRules()[..k], anchored)
    {
      var rule := Rule(SeCoreList[k], "Team2", ["Team1"], "Team2");
      ApplyRulesSnoc(f, SeCoreRules(), k, anchored);
      assert rule == SeCoreRules()[k];
      g := Step(g, rule, anchored);
      k := k + 1;
    }
    assert SeCoreRules()[..k] == SeCoreRules();
  }

  /** Lines 140-156: the Team1 and Team2 rules one by one, then the loop. */
  method RelabelRows(f: Frame, anchored: bool) returns (g: Frame)
    requires WellFormed(f)
    ensures g == ApplyRules(f, AllRules(), anchored)
  {
    var t := ApplyRules(f, TeamOneRules + TeamTwoRules, anchored);
    g := MergeSeCore(t, anchored);
    ApplyRulesAppend(f, TeamOneRules + TeamTwoRules, SeCoreRules(), anchored);
  }

  // ---- the margins survive the merging ----

  /** The margin row comes last and only there. */
  predicate MarginRowLast(index: seq<string>) {
    |index| > 0 && index[|index| - 1] == Margin && Margin !in index[..|index| - 1]
  }

  /** The cells of the last ("All") row. */
  function LastRow(f: Frame): (r: seq<nat>)
    requires WellFormed(f) && |f.index| > 0
    ensures |r| == |f.columns|
  {
    seq(|f.columns|, k requires 0 <= k < |f.columns| => f.columns[k].values[|f.index| - 1])
  }

  lemma {:induction false} DedupSnocNew(p: seq<string>, x: string)
    requires x !in p
    ensures Dedup(p + [x]) == Dedup(p) + [x]
  {
    assert (p + [x])[..|p|] == p;
  }

  /** Merging with the margin label last and only there keeps the "All" row
      last and with the same cells. */
  lemma MergeKeepsMarginRow(f: Frame, labels: seq<string>)
    requires WellFormed(f) && |labels| == |f.index| && MarginRowLast(labels)
    ensures var g := MergeRows(f, labels);
      MarginRowLast(g.index) && LastRow(g) == LastRow(f)
  {
    var g := MergeRows(f, labels);
    var n := |labels|;
    var p := labels[..n - 1];
    assert labels == p + [Margin];
    DedupSnocNew(p, Margin);
    assert g.index == Dedup(p) + [Margin];
    assert g.index[..|g.index| - 1] == Dedup(p);
    forall k | 0 <= k < |f.columns| ensures LastRow(g)[k] == LastRow(f)[k] {
      forall j | 0 <= j < n && j != n - 1 ensures labels[j] != labels[n - 1] {
        assert labels[j] in p;
      }
      SumWhereSingle(labels, f.columns[k].values, n - 1);
    }
  }

  /** A column whose "All" cell sums the other rows still does after merging. */
  lemma MergeKeepsColumnAddsUp(f: Frame, labels: seq<string>, k: nat)
    requires WellFormed(f) && |labels| == |f.index| && MarginRowLast(labels)
    requires k < |f.columns| && ColumnAddsUp(f.columns[k])
    ensures ColumnAddsUp(MergeRows(f, labels).columns[k])
  {
    var g := MergeRows(f, labels);
    MergeRowsMeaning(f, labels);
    MergeKeepsMarginRow(f, labels);
    assert LastRow(g)[k] == LastRow(f)[k];
    var v := f.columns[k].values;
    var w := g.columns[k].values;
    assert v == v[..|v| - 1] + [v[|v| - 1]];
    assert w == w[..|w| - 1] + [w[|w| - 1]];
  }

  function SumOfRows(labels: seq<string>, cols: seq<Column>, a: nat, u: string): (r: seq<nat>)
    requires forall k :: 0 <= k < |cols| ==> |cols[k].values| == |labels|
    ensures |r| == |cols|
  {
    seq(|cols|, k requires 0 <= k < |cols| => if k == a then 0 else SumWhere(labels, cols[k].values, u))
  }

  function Prefix(cols: seq<Column>, n: nat): (r: seq<Column>)
    requires forall k :: 0 <= k < |cols| ==> n <= |cols[k].values|
    ensures |r| == |cols| && forall k :: 0 <= k < |cols| ==> r[k] == Column(cols[k].name, cols[k].values[..n])
  {
    seq(|cols|, k requires 0 <= k < |cols| => Column(cols[k].name, cols[k].values[..n]))
  }

  /** Summing the rows labelled `u` commutes with summing across the columns. */
  lemma {:induction false} SumWhereOfRowSums(labels: seq<string>, cols: seq<Column>, a: nat, v: seq<nat>, u: string)
    requires |v| == |labels| && forall k :: 0 <= k < |cols| ==> |cols[k].values| == |labels|
    requires forall i :: 0 <= i < |labels| ==> v[i] == Sum(RowCells(cols, a, i))
    ensures SumWhere(labels, v, u) == Sum(SumOfRows(labels, cols, a, u))
    decreases |labels|
  {
    var n := |labels|;
    if n == 0 {
      assert SumOfRows(labels, cols, a, u) == Zeros(|cols|);
      SumZeros(|cols|);
    } else {
      PrefixRowSums(labels, cols, a, v);
      SumWhereOfRowSums(labels[..n - 1], Prefix(cols, n - 1), a, v[..n - 1], u);
      SumWhereOfRowSumsStep(labels, cols, a, v, u);
    }
  }

  /** The step of `SumWhereOfRowSums`: one more row. */
  lemma SumWhereOfRowSumsStep(labels: seq<string>, cols: seq<Column>, a: nat, v: seq<nat>, u: string)
    requires |v| == |labels| > 0 && forall k :: 0 <= k < |cols| ==> |cols[k].values| == |labels|
    requires forall i :: 0 <= i < |labels| ==> v[i] == Sum(RowCells(cols, a, i))
    requires var n := |labels|;
      SumWhere(labels[..n - 1], v[..n - 1], u) == Sum(SumOfRows(labels[..n - 1], Prefix(cols, n - 1), a, u))
    ensures SumWhere(labels, v, u) == Sum(SumOfRows(labels, cols, a, u))
  {
    var n := |labels|;
    var pl := labels[..n - 1];
    var pc := Prefix(cols, n - 1);
    var last := if labels[n - 1] == u then RowCells(cols, a, n - 1) else Zeros(|cols|);
    var before := SumOfRows(pl, pc, a, u);
    SumOfRowsSnoc(labels, cols, a, u);
    SumAdd(before, last);
    SumZeros(|cols|);
    assert Sum(last) == if labels[n - 1] == u then v[n - 1] else 0;
  }

  lemma PrefixRowSums(labels: seq<string>, cols: seq<Column>, a: nat, v: seq<nat>)
    requires |v| == |labels| > 0 && forall k :: 0 <= k < |cols| ==> |cols[k].values| == |labels|
    requires forall i :: 0 <= i < |labels| ==> v[i] == Sum(RowCells(cols, a, i))
    ensures var pc := Prefix(cols, |labels| - 1);
      forall i :: 0 <= i < |labels| - 1 ==> v[..|labels| - 1][i] == Sum(RowCells(pc, a, i))
  {
    var n := |labels|;
    var pc := Prefix(cols, n - 1);
    forall i | 0 <= i < n - 1 ensures v[..n - 1][i] == Sum(RowCells(pc, a, i)) {
      assert RowCells(pc, a, i) == RowCells(cols, a, i);
    }
  }

  lemma SumOfRowsSnoc(labels: seq<string>, cols: seq<Column>, a: nat, u: string)
    requires |labels| > 0 && forall k :: 0 <= k < |cols| ==> |cols[k].values| == |labels|
    ensures var n := |labels|;
      SumOfRows(labels, cols, a, u) ==
      Add(SumOfRows(labels[..n - 1], Prefix(cols, n - 1), a, u),
          if labels[n - 1] == u then RowCells(cols, a, n - 1) else Zeros(|cols|))
  {
    var n := |labels|;
    var pc := Prefix(cols, n - 1);
    forall k | 0 <= k < |cols| && k != a
      ensures SumWhere(labels, cols[k].values, u) == SumWhere(labels[..n - 1], pc[k].values, u) +
        (if labels[n - 1] == u then cols[k].values[n - 1] else 0)
    {
    }
  }


  /** The "All" column still holds, in each merged row, the sum of that row's
      other cells. */
  lemma MergeKeepsMarginAddsUp(f: Frame, labels: seq<string>, a: nat)
    requires |labels| == |f.index| && MarginAddsUp(f, a)
    ensures MarginAddsUp(MergeRows(f, labels), a)
  {
    var g := MergeRows(f, labels);
    forall j | 0 <= j < |g.index| ensures g.columns[a].values[j] == Sum(RowCells(g.columns, a, j)) {
      var u := g.index[j];
      SumWhereOfRowSums(labels, f.columns, a, f.columns[a].values, u);
      assert RowCells(g.columns, a, j) == SumOfRows(labels, f.columns, a, u);
    }
  }

  /** A rule that spares the margin keeps the "All" row last and unchanged. */
  lemma RelabelAllKeepsMargin(index: seq<string>, r: Rule, anchored: bool)
    requires MarginRowLast(index) && SparesMargin(r)
    ensures MarginRowLast(RelabelAll(index, r, anchored))
  {
    var l := RelabelAll(index, r, anchored);
    var n := |index|;
    RelabelSparesMargin(r);
    if anchored {
      NoRoomFrom(Margin, r.first, 0);
    }
    var pre := l[..n - 1];
    forall i | 0 <= i < |pre| ensures pre[i] != Margin {
      assert pre[i] == l[i];
      assert index[i] in index[..n - 1];
    }
  }

  /** The relabelling keeps the column names of the pivot and the "All" row
      last with the same cells, and (once a rule has run) the labels are unique. */
  lemma {:induction false} ApplyRulesKeepsMarginRow(f: Frame, rules: seq<Rule>, anchored: bool)
    requires WellFormed(f) && MarginRowLast(f.index)
    requires forall k :: 0 <= k < |rules| ==> SparesMargin(rules[k])
    ensures var g := ApplyRules(f, rules, anchored);
      Names(g.columns) == Names(f.columns) &&
      MarginRowLast(g.index) && LastRow(g) == LastRow(f) &&
      (rules != [] ==> Distinct(g.index))
  {
    if rules != [] {
      var p := rules[..|rules| - 1];
      var r := rules[|rules| - 1];
      assert forall k :: 0 <= k < |p| ==> p[k] == rules[k];
      ApplyRulesKeepsMarginRow(f, p, anchored);
      var h := ApplyRules(f, p, anchored);
      var labels := RelabelAll(h.index, r, anchored);
      RelabelAllKeepsMargin(h.index, r, anchored);
      MergeKeepsMarginRow(h, labels);
      MergeRowsMeaning(h, labels);
    }
  }

  /** Both margins still add up after the relabelling: every column's "All"
      cell sums its other rows and every row's "All" cell sums its other cells. */
  lemma {:induction false} ApplyRulesKeepsMargins(f: Frame, rules: seq<Rule>, anchored: bool, a: nat)
    requires WellFormed(f) && MarginRowLast(f.index) && MarginAddsUp(f, a)
    requires forall k :: 0 <= k < |f.columns| ==> ColumnAddsUp(f.columns[k])
    requires forall k :: 0 <= k < |rules| ==> SparesMargin(rules[k])
    ensures var g := ApplyRules(f, rules, anchored);
      MarginAddsUp(g, a) && forall k :: 0 <= k < |g.columns| ==> ColumnAddsUp(g.columns[k])
  {
    if rules != [] {
      var p := rules[..|rules| - 1];
      var r := rules[|rules| - 1];
      assert forall k :: 0 <= k < |p| ==> p[k] == rules[k];
      ApplyRulesKeepsMargins(f, p, anchored, a);
      ApplyRulesKeepsMarginRow(f, p, anchored);
      var h := ApplyRules(f, p, anchored);
      var labels := RelabelAll(h.index, r, anchored);
      RelabelAllKeepsMargin(h.index, r, anchored);
      MergeKeepsMarginAddsUp(h, labels, a);
      forall k | 0 <= k < |h.columns| ensures ColumnAddsUp(MergeRows(h, labels).columns[k]) {
        MergeKeepsColumnAddsUp(h, labels, k);
      }
    }
  }
}

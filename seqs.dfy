/** Sequence helpers shared by the report model: distinctness, filtering,
    first-appearance deduplication and natural-number sums. */
module Seqs {

  predicate Distinct(s: seq<string>) {
    forall i, j :: 0 <= i < j < |s| ==> s[i] != s[j]
  }

  /** The elements of `s` that are not in `d`, in their original order
      (the comprehension `[x for x in s if x not in d]`). */
  function Without(s: seq<string>, d: seq<string>): (r: seq<string>)
    ensures forall x :: x in r <==> x in s && x !in d
    ensures |r| <= |s|
  {
    if s == [] then []
    else if s[0] in d then Without(s[1..], d)
    else [s[0]] + Without(s[1..], d)
  }

  /** The elements of `s` that are in `d`, in their original order. */
  function KeepOnly(s: seq<string>, d: seq<string>): (r: seq<string>)
    ensures forall x :: x in r <==> x in s && x in d
    ensures |r| <= |s|
  {
    if s == [] then []
    else if s[0] in d then [s[0]] + KeepOnly(s[1..], d)
    else KeepOnly(s[1..], d)
  }

  /** How many elements of `s` lie in `d`. */
  function CountIn(s: seq<string>, d: seq<string>): (n: nat)
    ensures n <= |s|
  {
    if s == [] then 0 else (if s[0] in d then 1 else 0) + CountIn(s[1..], d)
  }

  lemma {:induction false} WithoutAppend(a: seq<string>, b: seq<string>, d: seq<string>)
    ensures Without(a + b, d) == Without(a, d) + Without(b, d)
  {
    if a != [] {
      assert (a + b)[1..] == a[1..] + b;
      WithoutAppend(a[1..], b, d);
    } else {
      assert a + b == b;
    }
  }

  lemma {:induction false} WithoutNoneDoomed(s: seq<string>, d: seq<string>)
    requires CountIn(s, d) == 0
    ensures Without(s, d) == s
  {
    if s != [] {
      WithoutNoneDoomed(s[1..], d);
      assert [s[0]] + s[1..] == s;
    }
  }

  lemma {:induction false} WithoutAllDoomed(s: seq<string>, d: seq<string>)
    requires forall i :: 0 <= i < |s| ==> s[i] in d
    ensures Without(s, d) == []
  {
    if s != [] {
      WithoutAllDoomed(s[1..], d);
    }
  }

  /** Filtering out the complement of `keep` within `universe` is the
      same as keeping the members of `keep`, for a list drawn from `universe`. */
  lemma {:induction false} WithoutComplement(s: seq<string>, universe: seq<string>, keep: seq<string>)
    requires forall x :: x in s ==> x in universe
    ensures Without(s, Without(universe, keep)) == KeepOnly(s, keep)
  {
    if s != [] {
      WithoutComplement(s[1..], universe, keep);
    }
  }

  /** `r` is `s` with some elements left out, order kept. */
  predicate Subsequence(r: seq<string>, s: seq<string>)
    decreases |s|
  {
    r == [] || (s != [] && ((r[0] == s[0] && Subsequence(r[1..], s[1..])) || Subsequence(r, s[1..])))
  }

  lemma {:induction false} SubsequenceMembers(r: seq<string>, s: seq<string>)
    requires Subsequence(r, s)
    ensures forall x :: x in r ==> x in s
    decreases |s|
  {
    if r != [] {
      if r[0] == s[0] && Subsequence(r[1..], s[1..]) {
        SubsequenceMembers(r[1..], s[1..]);
        assert forall x :: x in r ==> x == r[0] || x in r[1..];
      } else {
        SubsequenceMembers(r, s[1..]);
      }
    }
  }

  lemma {:induction false} SubsequenceDistinct(r: seq<string>, s: seq<string>)
    requires Subsequence(r, s) && Distinct(s)
    ensures Distinct(r)
    decreases |s|
  {
    if r != [] {
      assert Distinct(s[1..]) by {
        forall i, j | 0 <= i < j < |s[1..]| ensures s[1..][i] != s[1..][j] {
          assert s[1..][i] == s[i + 1] && s[1..][j] == s[j + 1];
        }
      }
      if r[0] == s[0] && Subsequence(r[1..], s[1..]) {
        SubsequenceDistinct(r[1..], s[1..]);
        SubsequenceMembers(r[1..], s[1..]);
        assert r[0] !in s[1..];
        assert r[0] !in r[1..];
        forall i, j | 0 <= i < j < |r| ensures r[i] != r[j] {
          if i > 0 {
            assert r[i] == r[1..][i - 1] && r[j] == r[1..][j - 1];
          } else {
            assert r[j] == r[1..][j - 1];
          }
        }
      } else {
        SubsequenceDistinct(r, s[1..]);
      }
    }
  }

  lemma {:induction false} SubsequenceReflexive(s: seq<string>)
    ensures Subsequence(s, s)
  {
    if s != [] {
      SubsequenceReflexive(s[1..]);
    }
  }

  lemma {:induction false} SubsequenceTransitive(a: seq<string>, b: seq<string>, c: seq<string>)
    requires Subsequence(a, b) && Subsequence(b, c)
    ensures Subsequence(a, c)
    decreases |c|
  {
    if a != [] {
      if b[0] == c[0] && Subsequence(b[1..], c[1..]) {
        if a[0] == b[0] && Subsequence(a[1..], b[1..]) {
          SubsequenceTransitive(a[1..], b[1..], c[1..]);
        } else {
          SubsequenceTransitive(a, b[1..], c[1..]);
        }
      } else {
        SubsequenceTransitive(a, b, c[1..]);
      }
    }
  }

  /** Python's `list.remove(x)`: delete the first occurrence of `x`. */
  function RemoveFirst(s: seq<string>, x: string): (r: seq<string>)
    requires x in s
    ensures |r| == |s| - 1
  {
    if s[0] == x then s[1..] else [s[0]] + RemoveFirst(s[1..], x)
  }

  /** In a list without repeats, removing the element at `i` by value removes position `i`. */
  lemma {:induction false} RemoveFirstAt(s: seq<string>, i: nat)
    requires i < |s| && Distinct(s)
    ensures RemoveFirst(s, s[i]) == s[..i] + s[i + 1..]
  {
    if i > 0 {
      assert s[0] != s[i];
      assert s[1..][i - 1] == s[i];
      RemoveFirstAt(s[1..], i - 1);
      assert s[..i] == [s[0]] + s[1..][..i - 1];
      assert s[i + 1..] == s[1..][i..];
    }
  }

  /** The index of the first occurrence of `x` in `s`. */
  function IndexOf(s: seq<string>, x: string): (i: nat)
    requires x in s
    ensures i < |s| && s[i] == x && x !in s[..i]
  {
    if s[0] == x then 0 else 1 + IndexOf(s[1..], x)
  }

  /** The distinct elements of `s` in order of first appearance
      (the group keys of a `groupby(sort=False)`). */
  function Dedup(s: seq<string>): (r: seq<string>)
    ensures Distinct(r)
    ensures forall x :: x in r <==> x in s
    ensures |r| <= |s|
  {
    if s == [] then []
    else
      var d := Dedup(s[..|s| - 1]);
      var x := s[|s| - 1];
      assert forall y :: y in s <==> y in s[..|s| - 1] || y == x;
      if x in d then d else d + [x]
  }

  /** Dedup lists each label in the order in which it first appears. */
  lemma {:induction false} DedupFirstAppearance(s: seq<string>)
    ensures forall i, j :: 0 <= i < j < |Dedup(s)| ==> IndexOf(s, Dedup(s)[i]) < IndexOf(s, Dedup(s)[j])
  {
    if s != [] {
      var p := s[..|s| - 1];
      var x := s[|s| - 1];
      DedupFirstAppearance(p);
      assert s == p + [x];
      forall y | y in p ensures IndexOf(s, y) == IndexOf(p, y) {
        IndexOfPrefix(p, x, y);
      }
      if x !in Dedup(p) {
        assert x !in p;
        IndexOfLast(p, x);
      }
    }
  }

  /** Keeping only some elements keeps a kept last element last. */
  lemma {:induction false} KeepOnlyLast(s: seq<string>, d: seq<string>)
    requires |s| > 0 && s[|s| - 1] in d
    ensures var r := KeepOnly(s, d); |r| > 0 && r[|r| - 1] == s[|s| - 1]
  {
    if |s| > 1 {
      KeepOnlyLast(s[1..], d);
    }
  }

  lemma {:induction false} IndexOfPrefix(p: seq<string>, x: string, y: string)
    requires y in p
    ensures IndexOf(p + [x], y) == IndexOf(p, y)
  {
    if p[0] != y {
      assert (p + [x])[1..] == p[1..] + [x];
      IndexOfPrefix(p[1..], x, y);
    }
  }

  lemma {:induction false} IndexOfLast(p: seq<string>, x: string)
    requires x !in p
    ensures IndexOf(p + [x], x) == |p|
  {
    if p != [] {
      assert (p + [x])[1..] == p[1..] + [x];
      IndexOfLast(p[1..], x);
    }
  }

  // ---- sums of naturals ----

  function Sum(v: seq<nat>): nat {
    if v == [] then 0 else Sum(v[..|v| - 1]) + v[|v| - 1]
  }

  function Zeros(n: nat): (z: seq<nat>)
    ensures |z| == n && forall i :: 0 <= i < n ==> z[i] == 0
  {
    seq(n, _ => 0)
  }

  /** Cell-wise sum of two equally long value lists (pandas' `a + b` on Series). */
  function Add(a: seq<nat>, b: seq<nat>): (r: seq<nat>)
    requires |a| == |b|
    ensures |r| == |a| && forall i :: 0 <= i < |a| ==> r[i] == a[i] + b[i]
  {
    seq(|a|, i requires 0 <= i < |a| => a[i] + b[i])
  }

  /** The sum of a cell-wise sum is the sum of the sums. */
  lemma {:induction false} SumAdd(x: seq<nat>, y: seq<nat>)
    requires |x| == |y|
    ensures Sum(Add(x, y)) == Sum(x) + Sum(y)
  {
    var n := |x|;
    if n > 0 {
      var a := Add(x, y);
      assert a[..n - 1] == Add(x[..n - 1], y[..n - 1]);
      assert a[n - 1] == x[n - 1] + y[n - 1];
      SumAdd(x[..n - 1], y[..n - 1]);
    }
  }

  lemma {:induction false} SumZeros(n: nat)
    ensures Sum(Zeros(n)) == 0
  {
    if n > 0 {
      assert Zeros(n)[..n - 1] == Zeros(n - 1);
      SumZeros(n - 1);
    }
  }

  /** Sum of the values whose label is `u`. */
  function SumWhere(labels: seq<string>, v: seq<nat>, u: string): nat
    requires |labels| == |v|
  {
    if labels == [] then 0
    else SumWhere(labels[..|labels| - 1], v[..|v| - 1], u) + (if labels[|labels| - 1] == u then v[|v| - 1] else 0)
  }

  lemma {:induction false} SumWhereAbsent(labels: seq<string>, v: seq<nat>, u: string)
    requires |labels| == |v| && u !in labels
    ensures SumWhere(labels, v, u) == 0
  {
    if labels != [] {
      assert labels[..|labels| - 1] <= labels;
      SumWhereAbsent(labels[..|labels| - 1], v[..|v| - 1], u);
    }
  }

  /** With exactly one position labelled `u`, SumWhere picks that one value. */
  lemma {:induction false} SumWhereSingle(labels: seq<string>, v: seq<nat>, i: nat)
    requires |labels| == |v| && i < |labels|
    requires forall j :: 0 <= j < |labels| && j != i ==> labels[j] != labels[i]
    ensures SumWhere(labels, v, labels[i]) == v[i]
  {
    var n := |labels|;
    var u := labels[i];
    if i == n - 1 {
      SumWhereAbsent(labels[..n - 1], v[..n - 1], u);
    } else {
      SumWhereSingle(labels[..n - 1], v[..n - 1], i);
    }
  }

  /** The per-key sums for the keys `ks`, in that order: one column of a
      group-by sum whose group keys are `ks`. */
  function GroupSums(labels: seq<string>, v: seq<nat>, ks: seq<string>): (r: seq<nat>)
    requires |labels| == |v|
    ensures |r| == |ks| && forall j :: 0 <= j < |ks| ==> r[j] == SumWhere(labels, v, ks[j])
  {
    seq(|ks|, j requires 0 <= j < |ks| => SumWhere(labels, v, ks[j]))
  }

  /** Sum of the values whose label is one of `ks`. */
  function SumIn(labels: seq<string>, v: seq<nat>, ks: seq<string>): nat
    requires |labels| == |v|
  {
    if labels == [] then 0
    else SumIn(labels[..|labels| - 1], v[..|v| - 1], ks) + (if labels[|labels| - 1] in ks then v[|v| - 1] else 0)
  }

  lemma {:induction false} SumInExtend(labels: seq<string>, v: seq<nat>, ks: seq<string>, k: string)
    requires |labels| == |v| && k !in ks
    ensures SumIn(labels, v, ks + [k]) == SumIn(labels, v, ks) + SumWhere(labels, v, k)
  {
    if labels != [] {
      SumInExtend(labels[..|labels| - 1], v[..|v| - 1], ks, k);
    }
  }

  lemma {:induction false} SumInCovering(labels: seq<string>, v: seq<nat>, ks: seq<string>)
    requires |labels| == |v|
    requires forall x :: x in labels ==> x in ks
    ensures SumIn(labels, v, ks) == Sum(v)
  {
    if labels != [] {
      assert forall x :: x in labels[..|labels| - 1] ==> x in labels;
      SumInCovering(labels[..|labels| - 1], v[..|v| - 1], ks);
    }
  }

  lemma {:induction false} SumInNone(labels: seq<string>, v: seq<nat>)
    requires |labels| == |v|
    ensures SumIn(labels, v, []) == 0
  {
    if labels != [] {
      SumInNone(labels[..|labels| - 1], v[..|v| - 1]);
    }
  }

  lemma {:induction false} GroupSumsIsSumIn(labels: seq<string>, v: seq<nat>, ks: seq<string>)
    requires |labels| == |v| && Distinct(ks)
    ensures Sum(GroupSums(labels, v, ks)) == SumIn(labels, v, ks)
  {
    var n := |ks|;
    if n == 0 {
      SumInNone(labels, v);
    } else {
      var p := ks[..n - 1];
      assert ks == p + [ks[n - 1]];
      assert GroupSums(labels, v, ks)[..n - 1] == GroupSums(labels, v, p);
      GroupSumsIsSumIn(labels, v, p);
      SumInExtend(labels, v, p, ks[n - 1]);
    }
  }

  /** Conservation of a group-by sum: the per-key sums over distinct keys
      that cover every label add up to the plain total. */
  lemma GroupSumsTotal(labels: seq<string>, v: seq<nat>, ks: seq<string>)
    requires |labels| == |v| && Distinct(ks)
    requires forall x :: x in labels ==> x in ks
    ensures Sum(GroupSums(labels, v, ks)) == Sum(v)
  {
    GroupSumsIsSumIn(labels, v, ks);
    SumInCovering(labels, v, ks);
  }
}

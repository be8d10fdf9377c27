/** String helpers: substring occurrence (the building block of the lookahead
    rules), Python's code-point ordering of strings with the sorted, duplicate-free
    label lists pandas builds, and `", ".join`. */
module Strings {
  import opened Seqs
  import opened Outcomes

  /** `m` occurs in `s` starting at position `i`. */
  predicate StartsAt(s: string, m: string, i: nat) {
    i + |m| <= |s| && s[i..i + |m|] == m
  }

  /** Some occurrence of `m` starts at or after `p`: what the lookahead
      `(?=.*?m)` tests at position `p` of a line, `.*?` scanning forward. */
  predicate OccursFrom(s: string, m: string, p: nat)
    decreases |s| - p
  {
    p <= |s| && (StartsAt(s, m, p) || OccursFrom(s, m, p + 1))
  }

  /** The last position at which `m` starts, searching positions up to `n`. */
  function LastStartUpTo(s: string, m: string, n: nat): (r: Option<nat>)
    ensures r.Some? ==> r.value <= n && StartsAt(s, m, r.value)
    ensures r.Some? ==> forall i :: r.value < i <= n ==> !StartsAt(s, m, i)
    ensures r.None? ==> forall i :: 0 <= i <= n ==> !StartsAt(s, m, i)
  {
    if StartsAt(s, m, n) then Some(n)
    else if n == 0 then None
    else LastStartUpTo(s, m, n - 1)
  }

  /** The last position at which `m` starts in `s`. */
  function LastStart(s: string, m: string): (r: Option<nat>)
    ensures r.Some? ==> StartsAt(s, m, r.value) && forall i :: r.value < i ==> !StartsAt(s, m, i)
    ensures r.None? ==> forall i :: !StartsAt(s, m, i)
  {
    LastStartUpTo(s, m, |s|)
  }

  /** The forward scan from `p` succeeds exactly when the last occurrence
      of `m` is at or after `p`. */
  lemma {:induction false} OccursFromLast(s: string, m: string, p: nat)
    ensures OccursFrom(s, m, p) <==> LastStart(s, m).Some? && p <= LastStart(s, m).value
    decreases |s| - p
  {
    if p <= |s| {
      OccursFromLast(s, m, p + 1);
    }
  }

  /** No occurrence starts where too little of `s` is left. */
  lemma {:induction false} NoRoomFrom(s: string, m: string, p: nat)
    requires |s| < p + |m|
    ensures !OccursFrom(s, m, p)
  {
    OccursFromLast(s, m, p);
  }

  /** Occurrences in the tail of `a + b` are occurrences in `b`. */
  lemma {:induction false} OccursFromShift(a: string, b: string, m: string, q: nat)
    ensures OccursFrom(a + b, m, |a| + q) <==> OccursFrom(b, m, q)
    decreases |b| - q
  {
    if q <= |b| {
      if |a| + q + |m| <= |a + b| {
        assert (a + b)[|a| + q..|a| + q + |m|] == b[q..q + |m|];
      }
      OccursFromShift(a, b, m, q + 1);
    }
  }

  /** A stretch without the first character of `m` holds no start of `m`. */
  lemma {:induction false} OccursFromSkip(x: string, y: string, m: string, p: nat)
    requires |m| > 0 && m[0] !in x && p <= |x|
    ensures OccursFrom(x + y, m, p) <==> OccursFrom(x + y, m, |x|)
    decreases |x| - p
  {
    if p < |x| {
      assert (x + y)[p] == x[p] != m[0];
      OccursFromSkip(x, y, m, p + 1);
    }
  }

  /** `m` does not occur from `p` on when its first character does not. */
  lemma AbsentFrom(s: string, m: string, p: nat)
    requires p <= |s| && |m| > 0 && m[0] !in s[p..]
    ensures !OccursFrom(s, m, p)
  {
    assert s == s[..p] + s[p..];
    OccursFromShift(s[..p], s[p..], m, 0);
    assert s[p..] + [] == s[p..];
    OccursFromSkip(s[p..], [], m, 0);
    NoRoomFrom(s[p..], m, |s[p..]|);
  }

  lemma {:induction false} OccursAt(s: string, m: string, i: nat, p: nat)
    requires p <= i && StartsAt(s, m, i)
    ensures OccursFrom(s, m, p)
  {
    OccursFromLast(s, m, p);
  }

  // ---- Python's ordering of str ----

  /** `a < b` on Python strings: code point by code point, a proper prefix first. */
  predicate StrLt(a: string, b: string) {
    if a == [] then b != []
    else if b == [] then false
    else if a[0] != b[0] then a[0] < b[0]
    else StrLt(a[1..], b[1..])
  }

  lemma {:induction false} StrLtIrreflexive(a: string)
    ensures !StrLt(a, a)
  {
    if a != [] {
      StrLtIrreflexive(a[1..]);
    }
  }

  lemma {:induction false} StrLtTotal(a: string, b: string)
    ensures a == b || StrLt(a, b) || StrLt(b, a)
  {
    if a != [] && b != [] && a[0] == b[0] {
      StrLtTotal(a[1..], b[1..]);
      if a[1..] == b[1..] {
        assert a == [a[0]] + a[1..] && b == [b[0]] + b[1..];
      }
    }
  }

  lemma {:induction false} StrLtAsymmetric(a: string, b: string)
    ensures !(StrLt(a, b) && StrLt(b, a))
  {
    if a != [] && b != [] && a[0] == b[0] {
      StrLtAsymmetric(a[1..], b[1..]);
    }
  }

  lemma {:induction false} StrLtTransitive(a: string, b: string, c: string)
    requires StrLt(a, b) && StrLt(b, c)
    ensures StrLt(a, c)
  {
    if a != [] && b != [] && c != [] && a[0] == b[0] && b[0] == c[0] {
      StrLtTransitive(a[1..], b[1..], c[1..]);
    }
  }

  /** Strictly ascending, so also free of repeats. */
  predicate Sorted(s: seq<string>) {
    forall i, j :: 0 <= i < j < |s| ==> StrLt(s[i], s[j])
  }

  /** Insert `x` into a sorted list of distinct strings, unless it is already there. */
  function InsertSorted(s: seq<string>, x: string): (r: seq<string>)
    requires Sorted(s)
    ensures Sorted(r)
    ensures forall y :: y in r <==> y == x || y in s
    ensures Distinct(s) ==> Distinct(r)
  {
    if s == [] then [x]
    else if x == s[0] then s
    else if StrLt(x, s[0]) then
      forall j | 0 <= j < |s| ensures StrLt(x, s[j]) && x != s[j] {
        if j > 0 { StrLtTransitive(x, s[0], s[j]); }
        StrLtAsymmetricFact(x, s[j]);
      }
      [x] + s
    else
      StrLtTotal(x, s[0]);
      var t := InsertSorted(s[1..], x);
      assert forall y :: y in t ==> StrLt(s[0], y);
      assert Distinct(s) ==> s[0] !in s[1..];
      [s[0]] + t
  }

  lemma StrLtAsymmetricFact(a: string, b: string)
    requires StrLt(a, b)
    ensures !StrLt(b, a) && a != b
  {
    StrLtAsymmetric(a, b);
    StrLtIrreflexive(a);
  }

  /** The distinct values of `s` in ascending order: the labels pandas'
      pivot_table gives its rows and columns. */
  function SortedUnique(s: seq<string>): (r: seq<string>)
    ensures Sorted(r) && Distinct(r)
    ensures forall y :: y in r <==> y in s
  {
    if s == [] then []
    else
      assert forall y :: y in s <==> y in s[..|s| - 1] || y == s[|s| - 1];
      InsertSorted(SortedUnique(s[..|s| - 1]), s[|s| - 1])
  }

  // ---- ", ".join ----

  /** Python's `sep.join(xs)`. */
  function Join(xs: seq<string>, sep: string): string {
    if xs == [] then ""
    else if |xs| == 1 then xs[0]
    else Join(xs[..|xs| - 1], sep) + sep + xs[|xs| - 1]
  }

  /** With a non-empty separator, the joined text is empty exactly when
      there is at most one part and that part is empty. */
  lemma {:induction false} JoinEmpty(xs: seq<string>, sep: string)
    requires sep != ""
    ensures Join(xs, sep) == "" <==> |xs| == 0 || (|xs| == 1 && xs[0] == "")
  {
  }

  /** Cutting a text at every occurrence of `sep`, scanning from the left. */
  function Split(s: string, sep: string): (r: seq<string>)
    requires sep != ""
    ensures |r| > 0
    decreases |s|
  {
    if |s| < |sep| then [s]
    else if s[..|sep|] == sep then [""] + Split(s[|sep|..], sep)
    else
      var t := Split(s[1..], sep);
      [[s[0]] + t[0]] + t[1..]
  }

  /** No character of `x` is `c`. */
  predicate FreeOf(x: string, c: char) {
    forall i :: 0 <= i < |x| ==> x[i] != c
  }

  lemma {:induction false} SplitFree(x: string, sep: string)
    requires sep != "" && FreeOf(x, sep[0])
    ensures Split(x, sep) == [x]
    decreases |x|
  {
    if |x| >= |sep| {
      assert x[..|sep|][0] == x[0];
      SplitFree(x[1..], sep);
      assert [x[0]] + x[1..] == x;
    }
  }

  lemma {:induction false} SplitAfterFree(a: string, b: string, sep: string)
    requires sep != "" && FreeOf(a, sep[0])
    ensures Split(a + sep + b, sep) == [a] + Split(b, sep)
    decreases |a|
  {
    var s := a + sep + b;
    if a == "" {
      assert s == sep + b;
      assert s[..|sep|] == sep && s[|sep|..] == b;
    } else {
      assert s[..|sep|][0] == a[0];
      assert s[1..] == a[1..] + sep + b;
      SplitAfterFree(a[1..], b, sep);
      assert [a[0]] + a[1..] == a;
    }
  }

  lemma {:induction false} JoinCons(x: string, rest: seq<string>, sep: string)
    requires rest != []
    ensures Join([x] + rest, sep) == x + sep + Join(rest, sep)
    decreases |rest|
  {
    var xs := [x] + rest;
    if |rest| == 1 {
      assert xs[..1] == [x];
    } else {
      var init := rest[..|rest| - 1];
      assert xs[..|xs| - 1] == [x] + init;
      JoinCons(x, init, sep);
      assert x + sep + Join(init, sep) + sep + rest[|rest| - 1] == x + sep + (Join(init, sep) + sep + rest[|rest| - 1]);
    }
  }

  /** Splitting undoes `sep.join(xs)` for a non-empty list whose parts never
      contain the separator's first character. */
  lemma {:induction false} SplitJoin(xs: seq<string>, sep: string)
    requires sep != "" && xs != []
    requires forall k :: 0 <= k < |xs| ==> FreeOf(xs[k], sep[0])
    ensures Split(Join(xs, sep), sep) == xs
    decreases |xs|
  {
    if |xs| == 1 {
      SplitFree(xs[0], sep);
    } else {
      var rest := xs[1..];
      assert xs == [xs[0]] + rest;
      JoinCons(xs[0], rest, sep);
      SplitAfterFree(xs[0], Join(rest, sep), sep);
      SplitJoin(rest, sep);
    }
  }
}


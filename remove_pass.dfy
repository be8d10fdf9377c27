/** Python's remove-while-iterating idiom,
    `for item in xs: if item in doomed: xs.remove(item)`: iterating a list while
    deleting from it moves the following element under the iterator, which then
    steps past it, so an element right after a removed one is never examined. */
module RemovePass {
  import opened Seqs

  /** What one such loop leaves in the list: a doomed element is removed and the
      element after it is kept unexamined. */
  function SkipPass(s: seq<string>, doomed: seq<string>): (r: seq<string>)
    ensures |r| <= |s|
  {
    if s == [] then []
    else if s[0] in doomed then
      if |s| == 1 then [] else [s[1]] + SkipPass(s[2..], doomed)
    else [s[0]] + SkipPass(s[1..], doomed)
  }

  /** A sweep only ever leaves elements out; it never adds or reorders. */
  lemma {:induction false} SkipPassSubsequence(s: seq<string>, doomed: seq<string>)
    ensures Subsequence(SkipPass(s, doomed), s)
    decreases |s|
  {
    if s != [] {
      if s[0] in doomed {
        if |s| > 1 {
          SkipPassSubsequence(s[2..], doomed);
          var r := [s[1]] + SkipPass(s[2..], doomed);
          assert s[1..][1..] == s[2..] && r[1..] == SkipPass(s[2..], doomed);
          assert Subsequence(r, s[1..]);
        }
      } else {
        SkipPassSubsequence(s[1..], doomed);
        var r := [s[0]] + SkipPass(s[1..], doomed);
        assert r[1..] == SkipPass(s[1..], doomed);
      }
    }
  }

  /** The loop itself, on the list and the list iterator's position. */
  method RemoveWhileIterating(items: seq<string>, doomed: seq<string>) returns (kept: seq<string>)
    requires Distinct(items)
    ensures kept == SkipPass(items, doomed)
  {
    kept := items;
    SubsequenceReflexive(items);
    var i := 0;
    while i < |kept|
      invariant i <= |kept| + 1
      invariant Subsequence(kept, items)
      invariant Outcome(kept, i, doomed) == SkipPass(items, doomed)
      decreases |kept| + 1 - i
    {
      SubsequenceDistinct(kept, items);
      var item := kept[i];
      if item in doomed {
        RemovedStep(kept, i, doomed);
        SubsequenceDrop(kept, i, items);
        assert kept[..i] + kept[i + 1..] == RemoveFirst(kept, item);
        kept := RemoveFirst(kept, item);
      } else {
        KeptStep(kept, i, doomed);
      }
      i := i + 1;
    }
  }

  /** What the list will hold when the loop ends, from list `s` with the
      iterator at `i` (past the end once the last element was removed). */
  ghost function Outcome(s: seq<string>, i: nat, doomed: seq<string>): seq<string>
    requires i <= |s| + 1
  {
    if i <= |s| then s[..i] + SkipPass(s[i..], doomed) else s
  }

  /** Removing a doomed element under the iterator keeps the outcome. */
  lemma RemovedStep(s: seq<string>, i: nat, doomed: seq<string>)
    requires i < |s| && s[i] in doomed && Distinct(s)
    ensures RemoveFirst(s, s[i]) == s[..i] + s[i + 1..]
    ensures Outcome(s[..i] + s[i + 1..], i + 1, doomed) == Outcome(s, i, doomed)
  {
    RemoveFirstAt(s, i);
    DoomedHeadStep(s, i, doomed);
  }

  lemma DoomedHeadStep(s: seq<string>, i: nat, doomed: seq<string>)
    requires i < |s| && s[i] in doomed
    ensures Outcome(s[..i] + s[i + 1..], i + 1, doomed) == Outcome(s, i, doomed)
  {
    var t := s[..i] + s[i + 1..];
    var rest := s[i..];
    assert rest[0] in doomed;
    if i + 1 < |s| {
      assert rest[1] == s[i + 1] && rest[2..] == s[i + 2..];
      assert SkipPass(rest, doomed) == [s[i + 1]] + SkipPass(s[i + 2..], doomed);
      assert t[..i + 1] == s[..i] + [s[i + 1]];
      assert t[i + 1..] == s[i + 2..];
    } else {
      assert |rest| == 1;
      assert SkipPass(rest, doomed) == [];
      assert t == s[..i];
    }
  }

  /** Stepping over an element that stays keeps the outcome. */
  lemma KeptStep(s: seq<string>, i: nat, doomed: seq<string>)
    requires i < |s| && s[i] !in doomed
    ensures Outcome(s, i + 1, doomed) == Outcome(s, i, doomed)
  {
    assert s[..i + 1] == s[..i] + [s[i]];
    assert s[i..] == [s[i]] + s[i + 1..];
    assert s[i..][1..] == s[i + 1..];
  }

  lemma {:induction false} SubsequenceDrop(s: seq<string>, j: nat, items: seq<string>)
    requires j < |s| && Subsequence(s, items)
    ensures Subsequence(s[..j] + s[j + 1..], s)
    ensures Subsequence(s[..j] + s[j + 1..], items)
  {
    DropIsSubsequence(s, j);
    SubsequenceTransitive(s[..j] + s[j + 1..], s, items);
  }

  lemma {:induction false} DropIsSubsequence(s: seq<string>, j: nat)
    requires j < |s|
    ensures Subsequence(s[..j] + s[j + 1..], s)
  {
    if j == 0 {
      assert s[..0] + s[1..] == s[1..];
      SubsequenceReflexive(s[1..]);
    } else {
      DropIsSubsequence(s[1..], j - 1);
      assert s[..j] + s[j + 1..] == [s[0]] + (s[1..][..j - 1] + s[1..][j..]);
    }
  }

  // ---- Properties of one sweep ----

  /** A sweep removes doomed elements only: the elements that are not
      doomed come through all of them, in order. */
  lemma {:induction false} SkipPassKeepsSurvivors(s: seq<string>, doomed: seq<string>)
    ensures Without(SkipPass(s, doomed), doomed) == Without(s, doomed)
    decreases |s|
  {
    if s != [] {
      if s[0] in doomed {
        if |s| > 1 {
          SkipPassKeepsSurvivors(s[2..], doomed);
          assert s[1..][1..] == s[2..];
          assert Without(s, doomed) == Without(s[1..], doomed);
          WithoutAppend([s[1]], SkipPass(s[2..], doomed), doomed);
          WithoutAppend([s[1]], s[2..], doomed);
          assert s[1..] == [s[1]] + s[2..];
        }
      } else {
        SkipPassKeepsSurvivors(s[1..], doomed);
        WithoutAppend([s[0]], SkipPass(s[1..], doomed), doomed);
      }
    }
  }

  /** A sweep leaves at most half of the doomed elements (rounded down):
      each one it leaves stands right after one it removed. */
  lemma {:induction false} SkipPassHalvesDoomed(s: seq<string>, doomed: seq<string>)
    ensures CountIn(SkipPass(s, doomed), doomed) <= CountIn(s, doomed) / 2
    decreases |s|
  {
    if s != [] {
      if s[0] in doomed {
        if |s| > 1 {
          SkipPassHalvesDoomed(s[2..], doomed);
          var r := SkipPass(s[2..], doomed);
          assert ([s[1]] + r)[1..] == r;
          assert s[1..][1..] == s[2..];
        }
      } else {
        SkipPassHalvesDoomed(s[1..], doomed);
        assert ([s[0]] + SkipPass(s[1..], doomed))[1..] == SkipPass(s[1..], doomed);
      }
    }
  }

  /** The element right after a doomed head is never examined, so it survives
      the sweep even when it is doomed too. */
  lemma SkipPassSkipsNext(s: seq<string>, doomed: seq<string>)
    requires |s| >= 2 && s[0] in doomed
    ensures s[1] in SkipPass(s, doomed)
    ensures s[0] !in SkipPass(s, doomed) <== Distinct(s)
  {
    if Distinct(s) {
      SkipPassSubsequence(s[2..], doomed);
      SubsequenceMembers(SkipPass(s[2..], doomed), s[2..]);
      assert s[0] !in s[2..] && s[0] != s[1];
    }
  }

  // ---- Repeated sweeps ----

  /** `n` sweeps of the loop over the same list. */
  function Sweeps(s: seq<string>, doomed: seq<string>, n: nat): (r: seq<string>)
    ensures Distinct(s) ==> Distinct(r)
  {
    if n == 0 then s
    else
      var p := Sweeps(s, doomed, n - 1);
      var r := SkipPass(p, doomed);
      assert Distinct(s) ==> Distinct(r) by {
        if Distinct(s) {
          SkipPassSubsequence(p, doomed);
          SubsequenceDistinct(r, p);
        }
      }
      r
  }

  /** After `n` sweeps at most floor(k / 2^n) of the k doomed elements remain. */
  lemma {:induction false} SweepsLeaveFewDoomed(s: seq<string>, doomed: seq<string>, n: nat, k: nat)
    requires CountIn(s, doomed) < k * Pow2(n)
    ensures CountIn(Sweeps(s, doomed, n), doomed) < k
    ensures Without(Sweeps(s, doomed, n), doomed) == Without(s, doomed)
  {
    if n > 0 {
      SweepsLeaveFewDoomed(s, doomed, n - 1, 2 * k);
      SkipPassHalvesDoomed(Sweeps(s, doomed, n - 1), doomed);
      SkipPassKeepsSurvivors(Sweeps(s, doomed, n - 1), doomed);
    } else {
      assert Pow2(0) == 1;
    }
  }

  function Pow2(n: nat): (p: nat)
    ensures p >= 1
  {
    if n == 0 then 1 else 2 * Pow2(n - 1)
  }

  /** Three sweeps remove every doomed element of a list holding at most seven
      of them, leaving exactly the non-doomed elements in their original order. */
  lemma ThreeSweepsSuffice(s: seq<string>, doomed: seq<string>)
    requires CountIn(s, doomed) <= 7
    ensures Sweeps(s, doomed, 3) == Without(s, doomed)
  {
    assert Pow2(3) == 8;
    SweepsLeaveFewDoomed(s, doomed, 3, 1);
    WithoutNoneDoomed(Sweeps(s, doomed, 3), doomed);
  }

  /** The single pass over a list whose every other element, from the first,
      is to be deleted: it keeps exactly the others. */
  lemma {:induction false} SkipPassAlternate(t: seq<string>, d: seq<string>)
    requires |t| % 2 == 0 && forall i :: 0 <= i < |t| && i % 2 == 0 ==> t[i] in d
    ensures SkipPass(t, d) == seq(|t| / 2, i requires 0 <= i < |t| / 2 => t[2 * i + 1])
  {
    if t != [] {
      var u := t[2..];
      forall i | 0 <= i < |u| && i % 2 == 0 ensures u[i] in d {
        assert u[i] == t[i + 2];
      }
      SkipPassAlternate(u, d);
      assert t[0] in d;
      assert SkipPass(t, d) == [t[1]] + SkipPass(u, d);
      var r := seq(|u| / 2, i requires 0 <= i < |u| / 2 => u[2 * i + 1]);
      var w := seq(|t| / 2, i requires 0 <= i < |t| / 2 => t[2 * i + 1]);
      forall i | 0 <= i < |w| ensures w[i] == ([t[1]] + r)[i] {
        if i > 0 { assert r[i - 1] == u[2 * (i - 1) + 1]; }
      }
      assert w == [t[1]] + r;
    }
  }

  /** Seven is the limit: of eight doomed elements, three sweeps leave the last. */
  lemma ThreeSweepsFailForEight(s: seq<string>)
    requires |s| == 8
    ensures Sweeps(s, s, 3) == [s[7]] && Without(s, s) == []
  {
    forall i | 0 <= i < |s| && i % 2 == 0 ensures s[i] in s { }
    SkipPassAlternate(s, s);
    var p1 := [s[1], s[3], s[5], s[7]];
    assert SkipPass(s, s) == p1;
    assert Sweeps(s, s, 1) == p1;
    assert p1[0] in s && p1[2] in s;
    SkipPassAlternate(p1, s);
    var p2 := [s[3], s[7]];
    assert SkipPass(p1, s) == p2;
    assert Sweeps(s, s, 2) == p2;
    assert p2[0] in s;
    SkipPassAlternate(p2, s);
    assert SkipPass(p2, s) == [s[7]];
    WithoutAllDoomed(s, s);
  }
}

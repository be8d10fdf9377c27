/** Pruning the resolution legend to the resolutions seen in this run. */
module Legend {
  import opened Seqs
  import opened Vocabulary
  import opened RemovePass

  /** `resolution_for_deletion`: the vocabulary entries not observed in this run. */
  function ForDeletion(observed: seq<string>): (r: seq<string>)
    ensures forall x :: x in r <==> x in AllResolution && x !in observed
  {
    Without(AllResolution, observed)
  }

  /** The legend after the three sweeps over each bucket's member list. */
  function PrunedLegend(observed: seq<string>): (r: seq<Bucket>)
    ensures |r| == |ResolutionLegend|
    ensures forall k :: 0 <= k < |r| ==> r[k].name == ResolutionLegend[k].name
  {
    seq(|ResolutionLegend|, k requires 0 <= k < |ResolutionLegend| =>
      Bucket(ResolutionLegend[k].name, Sweeps(ResolutionLegend[k].members, ForDeletion(observed), 3)))
  }

  /** Three sweeps are enough for the buckets used: each bucket ends up as its
      declared member list filtered to the observed resolutions, order kept. */
  lemma {:induction false} PrunedLegendIsFilter(observed: seq<string>)
    ensures forall k :: 0 <= k < |ResolutionLegend| ==>
      PrunedLegend(observed)[k].members == KeepOnly(ResolutionLegend[k].members, observed)
  {
    BucketsPartitionVocabulary();
    LegendWellFormed();
    forall k | 0 <= k < |ResolutionLegend|
      ensures PrunedLegend(observed)[k].members == KeepOnly(ResolutionLegend[k].members, observed)
    {
      var m := ResolutionLegend[k].members;
      assert forall x :: x in m ==> x in AllResolution by {
        forall x | x in m ensures x in AllResolution {
          assert InSomeBucket(x);
        }
      }
      ThreeSweepsSuffice(m, ForDeletion(observed));
      WithoutComplement(m, AllResolution, observed);
    }
  }

  /** The mutable `resolution_legend`: three buckets whose member lists are
      pruned in place. */
  class ResolutionLegendTable {
    var buckets: seq<Bucket>

    ghost predicate Valid()
      reads this
    {
      |buckets| == 3 && forall k :: 0 <= k < 3 ==> Distinct(buckets[k].members)
    }

    constructor ()
      ensures Valid() && buckets == ResolutionLegend
    {
      buckets := ResolutionLegend;
      LegendWellFormed();
    }

    /** Three rounds, each sweeping the three member lists once with the
        remove-while-iterating loop. */
    method PruneAbsent(forDeletion: seq<string>)
      requires Valid()
      modifies this
      ensures Valid()
      ensures forall k :: 0 <= k < 3 ==>
        buckets[k] == Bucket(old(buckets[k].name), Sweeps(old(buckets[k].members), forDeletion, 3))
    {
      ghost var start := buckets;
      var round := 0;
      while round < 3
        invariant 0 <= round <= 3 && Valid()
        invariant forall k :: 0 <= k < 3 ==>
          buckets[k] == Bucket(start[k].name, Sweeps(start[k].members, forDeletion, round))
      {
        var column := 0;
        while column < 3
          invariant 0 <= column <= 3 && Valid()
          invariant forall k :: 0 <= k < column ==>
            buckets[k] == Bucket(start[k].name, Sweeps(start[k].members, forDeletion, round + 1))
          invariant forall k :: column <= k < 3 ==>
            buckets[k] == Bucket(start[k].name, Sweeps(start[k].members, forDeletion, round))
        {
          var kept := RemoveWhileIterating(buckets[column].members, forDeletion);
          SweepDistinct(start[column].members, forDeletion, round + 1);
          buckets := buckets[column := Bucket(buckets[column].name, kept)];
          column := column + 1;
        }
        round := round + 1;
      }
    }
  }

  lemma SweepDistinct(s: seq<string>, d: seq<string>, n: nat)
    requires Distinct(s)
    ensures Distinct(Sweeps(s, d, n))
  {
  }

  /** Pruning the declared legend in place leaves each bucket holding exactly
      its observed members. */
  method PruneForRun(observed: seq<string>) returns (legend: seq<Bucket>)
    ensures legend == PrunedLegend(observed)
    ensures forall k :: 0 <= k < |legend| ==> legend[k].members == KeepOnly(ResolutionLegend[k].members, observed)
  {
    var table := new ResolutionLegendTable();
    table.PruneAbsent(ForDeletion(observed));
    legend := table.buckets;
    PrunedLegendIsFilter(observed);
  }
}

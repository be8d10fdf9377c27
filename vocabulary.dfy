/** The fixed resolution vocabulary of the Bugs report and its three buckets. */
module Vocabulary {
  import opened Seqs

  /** Every raw resolution the report knows how to bucket. */
  const AllResolution: seq<string> := ["Open", "In Progress", "Autor Action", "External Action", "Cannot Reproduce",
    "Consulting", "Decommitted", "Duplicate", "Won't Fix", "Fixed", "Done", "Not resolved", "Won't Do", "Not Applicable"]

  const UnresolvedMembers: seq<string> := ["Open", "In Progress", "Autor Action", "External Action", "Not resolved", "Won't Do"]
  const ResolvedMembers: seq<string> := ["Fixed", "Done"]
  const ConsultedMembers: seq<string> := ["Cannot Reproduce", "Consulting", "Decommitted", "Duplicate", "Won't Fix", "Not Applicable"]

  /** A bucket column and the raw resolution columns it sums. */
  datatype Bucket = Bucket(name: string, members: seq<string>)

  /** The resolution legend in declaration order: Unresolved, Resolved, Consulted. */
  const ResolutionLegend: seq<Bucket> := [
    Bucket("Unresolved", UnresolvedMembers),
    Bucket("Resolved", ResolvedMembers),
    Bucket("Consulted", ConsultedMembers)
  ]

  /** The resolutions the tracker can return that the report never buckets. */
  const Unbucketed: seq<string> := ["Rejected", "Incomplete"]

  /** A raw resolution belongs to some bucket. */
  predicate InSomeBucket(x: string) {
    exists k :: 0 <= k < |ResolutionLegend| && x in ResolutionLegend[k].members
  }

  /** The three buckets are pairwise disjoint and together are exactly the vocabulary;
      Rejected and Incomplete belong to none of them. */
  lemma BucketsPartitionVocabulary()
    ensures forall x :: x in AllResolution <==> InSomeBucket(x)
    ensures forall j, k, x :: 0 <= j < k < |ResolutionLegend| && x in ResolutionLegend[j].members ==> x !in ResolutionLegend[k].members
    ensures forall x :: x in Unbucketed ==> !InSomeBucket(x) && x !in AllResolution
  {
    forall x ensures x in AllResolution <==> InSomeBucket(x) {
      BucketsCover(x);
    }
    forall j, k, x | 0 <= j < k < |ResolutionLegend| && x in ResolutionLegend[j].members
      ensures x !in ResolutionLegend[k].members
    {
      BucketsDisjoint(j, k, x);
    }
  }

  lemma BucketsCover(x: string)
    ensures x in AllResolution <==> x in UnresolvedMembers || x in ResolvedMembers || x in ConsultedMembers
    ensures InSomeBucket(x) <==> x in UnresolvedMembers || x in ResolvedMembers || x in ConsultedMembers
  {
    if x in UnresolvedMembers {
      assert x in ResolutionLegend[0].members;
    } else if x in ResolvedMembers {
      assert x in ResolutionLegend[1].members;
    } else if x in ConsultedMembers {
      assert x in ResolutionLegend[2].members;
    }
  }

  lemma BucketsDisjoint(j: int, k: int, x: string)
    requires 0 <= j < k < |ResolutionLegend| && x in ResolutionLegend[j].members
    ensures x !in ResolutionLegend[k].members
  {
    if j == 0 {
      assert x in UnresolvedMembers;
    } else {
      assert x in ResolvedMembers;
    }
  }

  /** Every bucket member is a vocabulary name. */
  lemma MembersAreVocabulary()
    ensures forall k, x :: 0 <= k < |ResolutionLegend| && x in ResolutionLegend[k].members ==> x in AllResolution
  {
    forall k, x | 0 <= k < |ResolutionLegend| && x in ResolutionLegend[k].members ensures x in AllResolution {
      BucketsCover(x);
    }
  }

  /** No list of the legend repeats a name, and each bucket has at most seven
      members (so three remove-while-iterating sweeps empty it of absent names). */
  lemma LegendWellFormed()
    ensures Distinct(AllResolution)
    ensures forall k :: 0 <= k < |ResolutionLegend| ==> Distinct(ResolutionLegend[k].members) && |ResolutionLegend[k].members| <= 7
    ensures |ResolutionLegend| == 3
    ensures forall k :: 0 <= k < |ResolutionLegend| ==> ResolutionLegend[k].name !in AllResolution
  {
  }

  /** The three bucket names, and the margin's name is no resolution. */
  lemma BucketNames()
    ensures forall k :: 0 <= k < |ResolutionLegend| ==> ResolutionLegend[k].name in ["Unresolved", "Resolved", "Consulted"]
    ensures [ResolutionLegend[0].name, ResolutionLegend[1].name, ResolutionLegend[2].name] == ["Unresolved", "Resolved", "Consulted"]
    ensures "All" !in AllResolution
    ensures forall j, k :: 0 <= j < k < |ResolutionLegend| ==> ResolutionLegend[j].name != ResolutionLegend[k].name
  {
  }
}

/** One issue as the tracker returns it, and the flat spreadsheet row the
    report writes for it. */
module Records {
  import opened Seqs
  import opened Strings
  import opened Outcomes

  /** An issue with its component names already extracted. */
  datatype Issue = Issue(key: string, summary: string, components: seq<string>, labels: seq<string>, resolution: Option<string>)

  /** The row written under the headers Key, Summary, Component/s, Labels, Resolution. */
  datatype Record = Record(key: string, summary: string, component: string, labels: string, resolution: string)

  /** What the report writes for an issue that has no resolution. */
  const NotResolved := "Not resolved"

  const Separator := ", "

  /** Flatten an issue: join its labels and its component names with ", ",
      and write "Not resolved" when it has no resolution. */
  function Flatten(issue: Issue): (r: Record)
    ensures r.key == issue.key && r.summary == issue.summary
    ensures r.component == "" <==> |issue.components| == 0 || (|issue.components| == 1 && issue.components[0] == "")
    ensures issue.resolution.None? ==> r.resolution == NotResolved
    ensures issue.resolution.Some? ==> r.resolution == issue.resolution.value
    ensures |issue.components| == 1 ==> r.component == issue.components[0]
    ensures |issue.labels| == 1 ==> r.labels == issue.labels[0]
  {
    JoinEmpty(issue.components, Separator);
    Record(issue.key, issue.summary, Join(issue.components, Separator), Join(issue.labels, Separator),
      match issue.resolution
      case None => NotResolved
      case Some(name) => name)
  }

  /** The Component/s and Labels cells can be cut back at ", " into the
      original names, as long as no name holds a comma. */
  lemma FlattenSplitsBack(issue: Issue)
    requires forall k :: 0 <= k < |issue.components| ==> FreeOf(issue.components[k], ',')
    requires forall k :: 0 <= k < |issue.labels| ==> FreeOf(issue.labels[k], ',')
    ensures issue.components != [] ==> Split(Flatten(issue).component, Separator) == issue.components
    ensures issue.labels != [] ==> Split(Flatten(issue).labels, Separator) == issue.labels
  {
    if issue.components != [] {
      SplitJoin(issue.components, Separator);
    }
    if issue.labels != [] {
      SplitJoin(issue.labels, Separator);
    }
  }

  function FlattenAll(issues: seq<Issue>): (rs: seq<Record>)
    ensures |rs| == |issues| && forall i :: 0 <= i < |issues| ==> rs[i] == Flatten(issues[i])
  {
    seq(|issues|, i requires 0 <= i < |issues| => Flatten(issues[i]))
  }

  /** The resolution of every record, in record order (`resolution_list`). */
  function Resolutions(rs: seq<Record>): (r: seq<string>)
    ensures |r| == |rs| && forall i :: 0 <= i < |rs| ==> r[i] == rs[i].resolution
  {
    seq(|rs|, i requires 0 <= i < |rs| => rs[i].resolution)
  }

  /** `list(set(resolution_list))`: each resolution seen once. Only membership
      is used downstream, so the order (arbitrary in the source) is immaterial. */
  function ObservedResolutions(rs: seq<Record>): (r: seq<string>)
    ensures Distinct(r)
    ensures forall x :: x in r <==> exists i :: 0 <= i < |rs| && rs[i].resolution == x
  {
    var all := Resolutions(rs);
    assert forall x :: x in all <==> exists i :: 0 <= i < |rs| && all[i] == x;
    Dedup(all)
  }
}

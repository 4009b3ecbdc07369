/** The column schema: which accessor feeds which output column, grouped
    into the named sets the tables are built from. */
module Schema {
  import opened Seqs
  import opened Provider

  /** The accessor of the last column labelled `c`: in a dict built from
      (label, series) pairs a later pair wins. */
  function LastField<F>(cols: seq<(string, F)>, c: string): F
    requires c in Keys(cols)
  {
    var n := |cols| - 1;
    assert Keys(cols) == Keys(cols[..n]) + [cols[n].0];
    if cols[n].0 == c then cols[n].1 else LastField(cols[..n], c)
  }

  /** The last column with a label carries that label's accessor. */
  lemma {:induction false} LastFieldAt<F>(cols: seq<(string, F)>, k: nat)
    requires k < |cols| && forall j :: k < j < |cols| ==> cols[j].0 != cols[k].0
    ensures cols[k].0 in Keys(cols) && LastField(cols, cols[k].0) == cols[k].1
    decreases |cols|
  {
    assert Keys(cols)[k] == cols[k].0;
    var n := |cols| - 1;
    if k < n {
      assert forall j :: 0 <= j < n ==> cols[..n][j] == cols[j];
      LastFieldAt(cols[..n], k);
    }
  }

  /** The dictionary of column sets the pipeline is configured with. */
  datatype ColumnSets = ColumnSets(
    base: seq<(string, LaneField)>,
    lane: seq<(string, LaneField)>,
    read: seq<(string, LaneField)>,
    readYield: seq<(string, LaneField)>,
    xread: seq<(string, LaneField)>,
    summary: seq<(string, LaneField)>,
    idx: seq<(string, SampleField)>,
    summaryRead: seq<(string, ReadField)>)

  const BaseColumns: seq<(string, LaneField)> := [("lane", Lane)]
  const XreadColumns: seq<(string, LaneField)> := [("phasing", Phasing), ("pre_phasing", Prephasing)]
  const LaneColumns: seq<(string, LaneField)> := [
    ("error", ErrorRate), ("cluster_density", Density), ("cluster_density_passing_filter", DensityPf),
    ("reads_passing_filter", ReadsPf), ("reads", Reads), ("quality", PercentGtQ30)]
  const ReadColumns: seq<(string, LaneField)> := [("reads_aligned", PercentAligned)]
  const ReadYieldColumns: seq<(string, LaneField)> := [("yield", YieldG)]
  const IdxColumns: seq<(string, SampleField)> := [
    ("sample_name", SampleId), ("index1", Index1), ("index2", Index2),
    ("index_reads_passing_filter", FractionMapped)]
  const SummaryReadColumns: seq<(string, ReadField)> := [("is_index", IsIndex), ("number_of_cycles", TotalCycles)]

  /** The fixed schema. The run-summary set is the base, lane, read,
      read-yield and cross-read sets in that order. */
  function GetColumnsName(): (d: ColumnSets)
    ensures d.summary == d.base + d.lane + d.read + d.readYield + d.xread
    ensures Keys(d.base) == ["lane"]
    ensures "index1" in Keys(d.idx) && "index2" in Keys(d.idx)
  {
    var d := ColumnSets(BaseColumns, LaneColumns, ReadColumns, ReadYieldColumns, XreadColumns,
                        BaseColumns + LaneColumns + ReadColumns + ReadYieldColumns + XreadColumns,
                        IdxColumns, SummaryReadColumns);
    assert Keys(d.idx)[1] == "index1" && Keys(d.idx)[2] == "index2";
    d
  }

  /** Within the run-summary set an output name occurs once, and none is the
      `read_number` column the walker adds. */
  lemma SummaryLabelsDistinct()
    ensures Distinct(Keys(GetColumnsName().summary))
    ensures "read_number" !in Keys(GetColumnsName().summary)
  {
    SummaryLabels();
  }

  /** The run-summary labels, in order. */
  lemma SummaryLabels()
    ensures Keys(GetColumnsName().summary) == ["lane", "error", "cluster_density", "cluster_density_passing_filter",
      "reads_passing_filter", "reads", "quality", "reads_aligned", "yield", "phasing", "pre_phasing"]
  {
  }

  /** Within the sample set an output name occurs once, and none is the
      `index` or `lane` column the walker adds. */
  lemma IdxLabelsDistinct()
    ensures Distinct(Keys(GetColumnsName().idx))
    ensures "index" !in Keys(GetColumnsName().idx) && "lane" !in Keys(GetColumnsName().idx)
  {
    assert Keys(GetColumnsName().idx) == ["sample_name", "index1", "index2", "index_reads_passing_filter"];
  }

  /** The per-read set names two distinct columns. */
  lemma SummaryReadLabelsDistinct()
    ensures Distinct(Keys(GetColumnsName().summaryRead))
  {
    assert Keys(GetColumnsName().summaryRead) == ["is_index", "number_of_cycles"];
  }

  /** The columns the lane-level table averages. */
  lemma LaneSelectionLabels()
    ensures Keys(GetColumnsName().base + GetColumnsName().lane) ==
      ["lane", "error", "cluster_density", "cluster_density_passing_filter", "reads_passing_filter", "reads", "quality"]
    ensures Distinct(Keys(GetColumnsName().base + GetColumnsName().lane))
  {
    var d := GetColumnsName();
    assert d.base + d.lane == BaseColumns + LaneColumns;
  }

  /** The lane labels: six distinct names, among them both density
      columns, and neither `lane` nor `undetermined_indices`. */
  lemma LaneLabels()
    ensures Keys(GetColumnsName().lane) ==
      ["error", "cluster_density", "cluster_density_passing_filter", "reads_passing_filter", "reads", "quality"]
    ensures Distinct(Keys(GetColumnsName().lane))
    ensures "cluster_density" in Keys(GetColumnsName().lane) && "cluster_density_passing_filter" in Keys(GetColumnsName().lane)
    ensures "lane" !in Keys(GetColumnsName().lane) && "undetermined_indices" !in Keys(GetColumnsName().lane)
  {
    var l := Keys(GetColumnsName().lane);
    assert l == ["error", "cluster_density", "cluster_density_passing_filter", "reads_passing_filter", "reads", "quality"];
    assert l[1] == "cluster_density" && l[2] == "cluster_density_passing_filter";
  }

  /** The columns of the cross-read, read-level and read-yield selections. */
  lemma SelectionLabels()
    ensures Keys(GetColumnsName().xread) == ["phasing", "pre_phasing"]
    ensures Keys(GetColumnsName().base + GetColumnsName().read) == ["lane", "reads_aligned"]
    ensures Keys(GetColumnsName().base + GetColumnsName().readYield) == ["lane", "yield"]
  {
    var d := GetColumnsName();
    assert d.base + d.read == BaseColumns + ReadColumns;
    assert d.base + d.readYield == BaseColumns + ReadYieldColumns;
  }
}

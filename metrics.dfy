/** The table derivations of `parse_interop_info`: the cross-read means
    (`get_interop_info`, line 123), the lane-level table with
    `undetermined_indices` and the density-PF ratio, the cross-read merge
    with the per-read scalars (no units), the read, read-yield and sample
    tables (every row kept), and the run table. */
module Metrics {
  import opened Seqs
  import opened Cells
  import opened Results
  import opened Frames
  import opened Schema
  import opened Units

  // ---------------------------------------------------------------------
  // Cross-read means (line 123)

  /** The columns averaged per read: the cross-read labels, `read_number`, `quality`. */
  function XreadSelection(cols: ColumnSets): seq<string> {
    Keys(cols.xread) + ["read_number", "quality"]
  }

  /** `summary_df[xread + ['read_number', 'quality']].groupby(['read_number']).mean()`. */
  function Xread(summary: Table, cols: ColumnSets): (r: Result<Indexed>)
    requires summary.Valid()
    ensures r.Ok? ==> r.value.Valid() && r.value.name == "read_number"
  {
    SelectGroupBy(summary, XreadSelection(cols), "read_number", Mean)
  }

  /** The cross-read table exists exactly when the summary has the selected
      columns; it has one row per distinct read number, in order of first
      appearance, and each other column is that read's mean. */
  lemma XreadRows(summary: Table, cols: ColumnSets)
    requires summary.Valid()
    ensures Xread(summary, cols).Ok? <==> forall c :: c in XreadSelection(cols) ==> c in summary.columns
    ensures Xread(summary, cols).Err? ==> Xread(summary, cols).error.MissingColumn?
    ensures
      var r := Xread(summary, cols);
      r.Ok? ==>
        && r.value.keys == Dedup(summary.data["read_number"])
        && r.value.body.columns == Remove(Dedup(XreadSelection(cols)), "read_number")
        && forall c, i :: c in r.value.body.data && 0 <= i < |r.value.keys| ==>
             c in summary.data &&
             r.value.body.data[c][i] == Aggregate(Mean, Pick(summary.data[c], summary.data["read_number"], r.value.keys[i]))
  {
    assert "read_number" in XreadSelection(cols);
  }

  // ---------------------------------------------------------------------
  // Lane level (lines 173-185)

  /** `100 - x` on a grouped sum. */
  function Hundred(c: Cell): Cell {
    Real(100.0 - RealOf(c))
  }

  /** The columns line 178 selects: the base and lane labels. */
  function LaneSelection(cols: ColumnSets): seq<string> {
    Keys(cols.base + cols.lane)
  }

  /** The lane metrics: the lane labels. */
  function LaneMetrics(cols: ColumnSets): seq<string> {
    Keys(cols.lane)
  }

  /** What the lane-level code needs of a schema: the base set is `lane`
      alone, and the lane metrics name each column once, hold both density
      columns, and include neither `lane` nor the added
      `undetermined_indices`. */
  predicate LaneSchema(cols: ColumnSets) {
    var ms := LaneMetrics(cols);
    && Keys(cols.base) == ["lane"] && Distinct(ms)
    && "cluster_density" in ms && "cluster_density_passing_filter" in ms
    && "lane" !in ms && "undetermined_indices" !in ms
  }

  /** The selection of such a schema is `lane` then the lane metrics, each once. */
  lemma LaneSelectionSplit(cols: ColumnSets)
    requires LaneSchema(cols)
    ensures LaneSelection(cols) == ["lane"] + LaneMetrics(cols)
    ensures "lane" in LaneSelection(cols) && forall c :: c in LaneMetrics(cols) ==> c in LaneSelection(cols)
    ensures Distinct(LaneSelection(cols))
    ensures Remove(LaneSelection(cols), "lane") == LaneMetrics(cols)
  {
    KeysAppend(cols.base, cols.lane);
    DistinctCons("lane", LaneMetrics(cols));
  }

  /** The averaged lane metrics of the fixed schema, in order. */
  const LaneMetricNames: seq<string> :=
    ["error", "cluster_density", "cluster_density_passing_filter", "reads_passing_filter", "reads", "quality"]

  /** The fixed schema is such a schema; its lane metrics are the six above. */
  lemma FixedLaneSchema()
    ensures LaneSchema(GetColumnsName())
    ensures LaneMetrics(GetColumnsName()) == LaneMetricNames
  {
    LaneLabels();
  }

  /** Lines 178-179: the per-lane means of the base and lane columns. */
  function LaneGroups(summary: Table, cols: ColumnSets): (r: Result<Indexed>)
    requires summary.Valid()
    ensures r.Ok? ==> r.value.Valid() && r.value.name == "lane"
  {
    SelectGroupBy(summary, LaneSelection(cols), "lane", Mean)
  }

  /** The right-hand side of line 181, aligned on the lanes `keys`: 100
      minus the lane's summed `index_reads_passing_filter`, NaN for a lane
      without samples. */
  function Undetermined(keys: seq<Cell>, idx: Table): (r: Result<seq<Cell>>)
    requires idx.Valid()
    ensures r.Ok? ==> |r.value| == |keys|
  {
    var sums :- GroupBy(idx, "lane", Sum);
    Shares(keys, sums)
  }

  /** 100 minus the summed fraction of each lane of `keys`, NaN for a lane
      missing from the per-lane sums. */
  function Shares(keys: seq<Cell>, sums: Indexed): (r: Result<seq<Cell>>)
    requires sums.Valid()
    ensures r.Ok? <==> "index_reads_passing_filter" in sums.body.columns
    ensures r.Err? ==> r.error == MissingColumn("index_reads_passing_filter")
    ensures r.Ok? ==> |r.value| == |keys| && forall i :: 0 <= i < |keys| ==>
      r.value[i] == if keys[i] in sums.keys
                    then Hundred(sums.body.data["index_reads_passing_filter"][IndexOf(sums.keys, keys[i])])
                    else Missing
  {
    var fractions :- Column(sums.body, "index_reads_passing_filter");
    Ok(Align(keys, sums.keys, seq(|fractions|, i requires 0 <= i < |fractions| => Hundred(fractions[i]))))
  }

  /** Line 182: the density-PF column divided by the density column. */
  function DensityRatio(t: Table): (r: Result<Table>)
    requires t.Valid()
    ensures r.Ok? <==> "cluster_density_passing_filter" in t.columns && "cluster_density" in t.columns
    ensures r.Err? ==> r.error.MissingColumn?
    ensures r.Ok? ==> r.value.Valid() && r.value.height == t.height && r.value.columns == t.columns
    ensures r.Ok? ==> forall c :: c in t.columns && c != "cluster_density_passing_filter" ==> r.value.data[c] == t.data[c]
    ensures r.Ok? ==> forall i :: 0 <= i < t.height ==>
      r.value.data["cluster_density_passing_filter"][i] ==
        Divide(t.data["cluster_density_passing_filter"][i], t.data["cluster_density"][i])
  {
    var pf :- Column(t, "cluster_density_passing_filter");
    var density :- Column(t, "cluster_density");
    Ok(SetColumn(t, "cluster_density_passing_filter", seq(|pf|, i requires 0 <= i < |pf| => Divide(pf[i], density[i]))))
  }

  /** Lines 178-182: the per-lane means with `lane` restored as a column,
      `undetermined_indices` added and the density-PF ratio taken. */
  function LaneMeans(summary: Table, idx: Table, cols: ColumnSets): (r: Result<Indexed>)
    requires summary.Valid() && idx.Valid()
    ensures r.Ok? ==> r.value.Valid() && r.value.name == "lane"
  {
    var g :- LaneGroups(summary, cols);
    var t := Unindex(g);
    var undetermined :- Undetermined(g.keys, idx);
    var t2 := SetColumn(t, "undetermined_indices", undetermined);
    var t3 :- DensityRatio(t2);
    Ok(Indexed("lane", g.keys, t3))
  }

  /** The mean of column `c` over the rows of lane `k`. */
  function LaneMean(t: Table, c: string, k: Cell): Cell
    requires t.Valid() && c in t.columns && "lane" in t.columns
  {
    Aggregate(Mean, Pick(t.data[c], t.data["lane"], k))
  }

  /** A lane that occurs has a finite mean: the sum of its rows' values
      over their count. */
  lemma LaneMeanValue(t: Table, c: string, k: Cell)
    requires t.Valid() && c in t.columns && "lane" in t.columns && k in t.data["lane"]
    ensures var cs := Pick(t.data[c], t.data["lane"], k);
      |cs| > 0 && LaneMean(t, c, k) == Real(SumReals(Reals(cs)) / |cs| as real)
  {
    PickNonEmpty(t.data[c], t.data["lane"], k);
  }

  /** The per-lane grouping exists exactly when the summary has the
      selected columns; otherwise the first one missing is reported. */
  lemma LaneGroupsOk(summary: Table, cols: ColumnSets)
    requires summary.Valid() && LaneSchema(cols)
    ensures
      var sel := LaneSelection(cols);
      var r := LaneGroups(summary, cols);
      && (r.Ok? <==> forall c :: c in sel ==> c in summary.columns)
      && (r.Err? ==> r.error.MissingColumn? && r.error.name in sel)
  {
    LaneSelectionSplit(cols);
  }

  /** A per-lane grouping has one row per distinct lane, in order of first
      appearance. */
  lemma LaneGroupsKeys(summary: Table, cols: ColumnSets)
    requires summary.Valid() && LaneGroups(summary, cols).Ok?
    ensures "lane" in summary.columns
    ensures LaneGroups(summary, cols).value.keys == Dedup(summary.data["lane"])
  {
  }

  /** Its columns are the lane metrics, in order. */
  lemma LaneGroupsColumns(summary: Table, cols: ColumnSets)
    requires summary.Valid() && LaneSchema(cols) && LaneGroups(summary, cols).Ok?
    ensures LaneGroups(summary, cols).value.body.columns == LaneMetrics(cols)
  {
    LaneSelectionSplit(cols);
  }

  /** Each of its columns holds, on row `i`, the mean of that summary
      column over the rows of lane `keys[i]`. */
  lemma LaneGroupsCells(summary: Table, cols: ColumnSets)
    requires summary.Valid() && LaneGroups(summary, cols).Ok?
    ensures var g := LaneGroups(summary, cols).value;
      && "lane" in summary.columns
      && forall c, i :: c in g.body.data && 0 <= i < |g.keys| ==>
           c in summary.columns && g.body.data[c][i] == LaneMean(summary, c, g.keys[i])
  {
  }

  /** The three facts above together. */
  lemma LaneGroupsRows(summary: Table, cols: ColumnSets)
    requires summary.Valid() && LaneSchema(cols)
    ensures
      var r := LaneGroups(summary, cols);
      && (r.Ok? ==> "lane" in summary.columns && r.value.keys == Dedup(summary.data["lane"]))
      && (r.Ok? ==> r.value.body.columns == LaneMetrics(cols))
      && (r.Ok? ==> forall c, i :: c in r.value.body.data && 0 <= i < |r.value.keys| ==>
            c in summary.columns && r.value.body.data[c][i] == LaneMean(summary, c, r.value.keys[i]))
  {
    if LaneGroups(summary, cols).Ok? {
      LaneGroupsKeys(summary, cols);
      LaneGroupsColumns(summary, cols);
      LaneGroupsCells(summary, cols);
    }
  }

  lemma HundredSum(cs: seq<Cell>)
    ensures Hundred(Aggregate(Sum, cs)) == Real(100.0 - SumReals(Reals(cs)))
  {
  }

  /** The undetermined share exists exactly when the sample table has
      `lane` and `index_reads_passing_filter`. */
  lemma UndeterminedOk(keys: seq<Cell>, idx: Table)
    requires idx.Valid()
    ensures Undetermined(keys, idx).Ok? <==> "lane" in idx.columns && "index_reads_passing_filter" in idx.columns
    ensures Undetermined(keys, idx).Err? ==> Undetermined(keys, idx).error.MissingColumn?
  {
  }

  /** The share of lane `k`'s reads that no sample claims: 100 minus the
      summed `index_reads_passing_filter` of its samples, NaN for a lane
      without samples. */
  function LaneShare(idx: Table, k: Cell): Cell
    requires idx.Valid() && "lane" in idx.columns && "index_reads_passing_filter" in idx.columns
  {
    if k in idx.data["lane"]
    then Real(100.0 - SumReals(Reals(Pick(idx.data["index_reads_passing_filter"], idx.data["lane"], k))))
    else Missing
  }

  /** A lane with samples: its share is 100 minus their grouped sum. */
  lemma LaneShareSum(idx: Table, k: Cell)
    requires idx.Valid() && "lane" in idx.columns && "index_reads_passing_filter" in idx.columns
    requires k in idx.data["lane"]
    ensures LaneShare(idx, k) == Hundred(Aggregate(Sum, Pick(idx.data["index_reads_passing_filter"], idx.data["lane"], k)))
  {
    HundredSum(Pick(idx.data["index_reads_passing_filter"], idx.data["lane"], k));
  }

  /** Each lane's value of line 181 is its undetermined share. */
  lemma UndeterminedAt(keys: seq<Cell>, idx: Table, i: nat)
    requires idx.Valid() && Undetermined(keys, idx).Ok? && i < |keys|
    ensures "lane" in idx.columns && "index_reads_passing_filter" in idx.columns
    ensures Undetermined(keys, idx).value[i] == LaneShare(idx, keys[i])
  {
    UndeterminedOk(keys, idx);
    var sums := GroupBy(idx, "lane", Sum).value;
    assert keys[i] in sums.keys <==> keys[i] in idx.data["lane"];
    if keys[i] in idx.data["lane"] {
      var picked := Pick(idx.data["index_reads_passing_filter"], idx.data["lane"], keys[i]);
      assert sums.body.data["index_reads_passing_filter"][IndexOf(sums.keys, keys[i])] == Aggregate(Sum, picked);
      LaneShareSum(idx, keys[i]);
    }
  }

  /** A summary without a selected column: the grouping's error. */
  lemma LaneMeansGroupsErr(summary: Table, idx: Table, cols: ColumnSets)
    requires summary.Valid() && idx.Valid() && LaneGroups(summary, cols).Err?
    ensures LaneMeans(summary, idx, cols) == Err(LaneGroups(summary, cols).error)
  {
  }

  /** A sample table without `lane` or `index_reads_passing_filter`: its
      grouping's error. */
  lemma LaneMeansSharesErr(summary: Table, idx: Table, cols: ColumnSets)
    requires summary.Valid() && idx.Valid() && LaneGroups(summary, cols).Ok?
    requires Undetermined(LaneGroups(summary, cols).value.keys, idx).Err?
    ensures LaneMeans(summary, idx, cols) == Err(Undetermined(LaneGroups(summary, cols).value.keys, idx).error)
  {
  }

  /** With both groupings in place lines 180-182 succeed. */
  lemma LaneMeansBothOk(summary: Table, idx: Table, cols: ColumnSets)
    requires summary.Valid() && idx.Valid() && LaneSchema(cols) && LaneGroups(summary, cols).Ok?
    requires Undetermined(LaneGroups(summary, cols).value.keys, idx).Ok?
    ensures LaneMeans(summary, idx, cols).Ok?
  {
    LaneGroupsRows(summary, cols);
    var g := LaneGroups(summary, cols).value;
    LaneBodyOk(g, Undetermined(g.keys, idx).value);
  }

  /** The lane table exists exactly when the summary has the selected
      columns and the sample table has `lane` and
      `index_reads_passing_filter`; otherwise a column is missing. */
  lemma LaneMeansOk(summary: Table, idx: Table, cols: ColumnSets)
    requires summary.Valid() && idx.Valid() && LaneSchema(cols)
    ensures LaneMeans(summary, idx, cols).Ok? <==>
      && (forall c :: c in LaneSelection(cols) ==> c in summary.columns)
      && "lane" in idx.columns && "index_reads_passing_filter" in idx.columns
    ensures LaneMeans(summary, idx, cols).Err? ==> LaneMeans(summary, idx, cols).error.MissingColumn?
  {
    LaneGroupsOk(summary, cols);
    var g := LaneGroups(summary, cols);
    if g.Ok? {
      UndeterminedOk(g.value.keys, idx);
      if Undetermined(g.value.keys, idx).Ok? {
        LaneMeansBothOk(summary, idx, cols);
      } else {
        LaneMeansSharesErr(summary, idx, cols);
      }
    } else {
      LaneMeansGroupsErr(summary, idx, cols);
    }
  }

  /** The lane table has one row per distinct lane, in order of first
      appearance; its columns are the lane metrics, then `lane`, then
      `undetermined_indices`. */
  lemma LaneMeansShape(summary: Table, idx: Table, cols: ColumnSets)
    requires summary.Valid() && idx.Valid() && LaneSchema(cols) && LaneMeans(summary, idx, cols).Ok?
    ensures
      var r := LaneMeans(summary, idx, cols).value;
      && "lane" in summary.columns
      && r.keys == Dedup(summary.data["lane"])
      && r.body.columns == LaneMetrics(cols) + ["lane"] + ["undetermined_indices"]
      && r.body.height == |r.keys|
  {
    LaneGroupsRows(summary, cols);
    var sel := LaneSelection(cols);
    var g := LaneGroups(summary, cols).value;
    var u := Undetermined(g.keys, idx).value;
    var t := Unindex(g);
    var t2 := SetColumn(t, "undetermined_indices", u);
    assert LaneMeans(summary, idx, cols).value.body == DensityRatio(t2).value;
    assert t.columns == LaneMetrics(cols) + ["lane"];
    assert "undetermined_indices" !in t.columns;
    assert t2.columns == t.columns + ["undetermined_indices"];
  }

  /** The lane table is the per-lane grouping with `lane` restored, the
      undetermined shares added and the density-PF ratio taken. */
  lemma LaneMeansParts(summary: Table, idx: Table, cols: ColumnSets)
    requires summary.Valid() && idx.Valid() && LaneMeans(summary, idx, cols).Ok?
    ensures LaneGroups(summary, cols).Ok?
    ensures var g := LaneGroups(summary, cols).value;
      && Undetermined(g.keys, idx).Ok?
      && SetColumn(Unindex(g), "undetermined_indices", Undetermined(g.keys, idx).value).Valid()
      && DensityRatio(SetColumn(Unindex(g), "undetermined_indices", Undetermined(g.keys, idx).value)).Ok?
      && LaneMeans(summary, idx, cols).value ==
           Indexed("lane", g.keys, DensityRatio(SetColumn(Unindex(g), "undetermined_indices", Undetermined(g.keys, idx).value)).value)
  {
  }

  /** Row `i` of the lane table carries lane `k = keys[i]` and its
      undetermined share. */
  lemma LaneMeansLane(summary: Table, idx: Table, cols: ColumnSets, i: nat)
    requires summary.Valid() && idx.Valid() && LaneSchema(cols) && LaneMeans(summary, idx, cols).Ok?
    requires i < |LaneMeans(summary, idx, cols).value.keys|
    ensures "lane" in idx.columns && "index_reads_passing_filter" in idx.columns
    ensures var r := LaneMeans(summary, idx, cols).value;
      && "lane" in r.body.data && "undetermined_indices" in r.body.data
      && r.body.data["lane"][i] == r.keys[i]
      && r.body.data["undetermined_indices"][i] == LaneShare(idx, r.keys[i])
  {
    LaneMeansParts(summary, idx, cols);
    LaneGroupsRows(summary, cols);
    var g := LaneGroups(summary, cols).value;
    UndeterminedAt(g.keys, idx, i);
  }

  /** Lines 180-182 succeed on a grouping that has both densities. */
  lemma LaneBodyOk(g: Indexed, u: seq<Cell>)
    requires g.Valid() && g.name == "lane" && |u| == |g.keys|
    requires "cluster_density" in g.body.columns && "cluster_density_passing_filter" in g.body.columns
    ensures SetColumn(Unindex(g), "undetermined_indices", u).Valid()
    ensures DensityRatio(SetColumn(Unindex(g), "undetermined_indices", u)).Ok?
  {
  }

  /** Lines 180-182 keep every grouped metric but density-PF as it is. */
  lemma LaneBodyColumn(g: Indexed, u: seq<Cell>, c: string)
    requires g.Valid() && g.name == "lane" && |u| == |g.keys|
    requires DensityRatio(SetColumn(Unindex(g), "undetermined_indices", u)).Ok?
    requires c in g.body.columns && c != "lane" && c != "undetermined_indices" && c != "cluster_density_passing_filter"
    ensures var b := DensityRatio(SetColumn(Unindex(g), "undetermined_indices", u)).value;
      c in b.data && b.data[c] == g.body.data[c]
  {
  }

  /** Line 182 divides the grouped density-PF by the grouped density. */
  lemma LaneBodyRatio(g: Indexed, u: seq<Cell>, i: nat)
    requires g.Valid() && g.name == "lane" && |u| == |g.keys| && i < |g.keys|
    requires DensityRatio(SetColumn(Unindex(g), "undetermined_indices", u)).Ok?
    requires "cluster_density" in g.body.columns && "cluster_density_passing_filter" in g.body.columns
    ensures var b := DensityRatio(SetColumn(Unindex(g), "undetermined_indices", u)).value;
      && "cluster_density_passing_filter" in b.data
      && b.data["cluster_density_passing_filter"][i] ==
           Divide(g.body.data["cluster_density_passing_filter"][i], g.body.data["cluster_density"][i])
  {
    var t2 := SetColumn(Unindex(g), "undetermined_indices", u);
    assert t2.data["cluster_density"] == g.body.data["cluster_density"];
    assert t2.data["cluster_density_passing_filter"] == g.body.data["cluster_density_passing_filter"];
  }

  /** Row `i` of the lane table holds the ratio of lane `keys[i]`'s mean
      density-PF to its mean density. */
  lemma LaneMeansRatio(summary: Table, idx: Table, cols: ColumnSets, i: nat)
    requires summary.Valid() && idx.Valid() && LaneSchema(cols) && LaneMeans(summary, idx, cols).Ok?
    requires i < |LaneMeans(summary, idx, cols).value.keys|
    ensures "lane" in summary.columns && "cluster_density" in summary.columns
    ensures "cluster_density_passing_filter" in summary.columns
    ensures var r := LaneMeans(summary, idx, cols).value;
      && "cluster_density_passing_filter" in r.body.data
      && r.body.data["cluster_density_passing_filter"][i] ==
           Divide(LaneMean(summary, "cluster_density_passing_filter", r.keys[i]), LaneMean(summary, "cluster_density", r.keys[i]))
  {
    LaneMeansParts(summary, idx, cols);
    LaneGroupsRows(summary, cols);
    var g := LaneGroups(summary, cols).value;
    LaneBodyRatio(g, Undetermined(g.keys, idx).value, i);
  }

  /** Every other lane metric holds, on row `i`, lane `keys[i]`'s mean. */
  lemma LaneMeansMetric(summary: Table, idx: Table, cols: ColumnSets, c: string, i: nat)
    requires summary.Valid() && idx.Valid() && LaneSchema(cols) && LaneMeans(summary, idx, cols).Ok?
    requires i < |LaneMeans(summary, idx, cols).value.keys|
    requires c in LaneMetrics(cols) && c != "cluster_density_passing_filter"
    ensures "lane" in summary.columns && c in summary.columns
    ensures var r := LaneMeans(summary, idx, cols).value;
      c in r.body.data && r.body.data[c][i] == LaneMean(summary, c, r.keys[i])
  {
    LaneMeansParts(summary, idx, cols);
    LaneGroupsRows(summary, cols);
    var g := LaneGroups(summary, cols).value;
    LaneBodyColumn(g, Undetermined(g.keys, idx).value, c);
  }

  /** `get_lane_level_metrics`: the lane means, converted, then annotated. */
  function LaneLevel(show: real -> string, summary: Table, idx: Table, cols: ColumnSets, m: Metrics): (r: Result<Indexed>)
    requires summary.Valid() && idx.Valid()
    ensures r.Ok? ==> r.value.Valid() && r.value.name == "lane"
  {
    var means :- LaneMeans(summary, idx, cols);
    var body :- WithUnits(show, means.body, m);
    Ok(Indexed("lane", means.keys, body))
  }

  /** The undetermined shares are numbers. */
  lemma LaneSharesNumbers(summary: Table, idx: Table, cols: ColumnSets, i: nat)
    requires summary.Valid() && idx.Valid() && LaneSchema(cols) && LaneMeans(summary, idx, cols).Ok?
    requires i < |LaneMeans(summary, idx, cols).value.keys|
    ensures var b := LaneMeans(summary, idx, cols).value.body;
      "undetermined_indices" in b.data && b.data["undetermined_indices"][i].Num?
  {
    LaneMeansLane(summary, idx, cols, i);
  }

  /** The density-PF ratios are numbers. */
  lemma LaneRatiosNumbers(summary: Table, idx: Table, cols: ColumnSets, i: nat)
    requires summary.Valid() && idx.Valid() && LaneSchema(cols) && LaneMeans(summary, idx, cols).Ok?
    requires i < |LaneMeans(summary, idx, cols).value.keys|
    ensures var b := LaneMeans(summary, idx, cols).value.body;
      "cluster_density_passing_filter" in b.data && b.data["cluster_density_passing_filter"][i].Num?
  {
    LaneMeansRatio(summary, idx, cols, i);
  }

  /** The other lane metrics are numbers. */
  lemma LaneMetricNumbers(summary: Table, idx: Table, cols: ColumnSets, c: string, i: nat)
    requires summary.Valid() && idx.Valid() && LaneSchema(cols) && LaneMeans(summary, idx, cols).Ok?
    requires i < |LaneMeans(summary, idx, cols).value.keys|
    requires c in LaneMetrics(cols) && c != "cluster_density_passing_filter"
    ensures var b := LaneMeans(summary, idx, cols).value.body;
      c in b.data && b.data[c][i].Num?
  {
    LaneMeansMetric(summary, idx, cols, c, i);
  }

  /** Every cell of the lane table outside `lane` is a number: a mean, a
      ratio or an undetermined share. */
  lemma LaneCellNumber(summary: Table, idx: Table, cols: ColumnSets, c: string, i: nat)
    requires summary.Valid() && idx.Valid() && LaneSchema(cols) && LaneMeans(summary, idx, cols).Ok?
    requires c in LaneMeans(summary, idx, cols).value.body.columns && c != "lane"
    requires i < LaneMeans(summary, idx, cols).value.body.height
    ensures LaneMeans(summary, idx, cols).value.body.data[c][i].Num?
  {
    LaneMeansShape(summary, idx, cols);
    var ms := LaneMetrics(cols);
    InSnocSnoc(c, ms, "lane", "undetermined_indices");
    if c == "undetermined_indices" {
      LaneSharesNumbers(summary, idx, cols, i);
    } else if c == "cluster_density_passing_filter" {
      LaneRatiosNumbers(summary, idx, cols, i);
    } else {
      LaneMetricNumbers(summary, idx, cols, c, i);
    }
  }

  /** The lane table's cells outside `lane` are all numbers. */
  lemma LaneNumbers(summary: Table, idx: Table, cols: ColumnSets)
    requires summary.Valid() && idx.Valid() && LaneSchema(cols) && LaneMeans(summary, idx, cols).Ok?
    ensures var t := LaneMeans(summary, idx, cols).value.body;
      forall c, i :: c in t.columns && c != "lane" && 0 <= i < t.height ==> Numeric(t.data[c][i]).Some?
  {
    var t := LaneMeans(summary, idx, cols).value.body;
    forall c, i | c in t.columns && c != "lane" && 0 <= i < t.height
      ensures Numeric(t.data[c][i]).Some?
    {
      LaneCellNumber(summary, idx, cols, c, i);
    }
  }

  /** A lane table that exists gets its units. */
  lemma LaneLevelOkIf(show: real -> string, summary: Table, idx: Table, cols: ColumnSets)
    requires summary.Valid() && idx.Valid() && LaneSchema(cols) && LaneMeans(summary, idx, cols).Ok?
    ensures LaneLevel(show, summary, idx, cols, GetMetrics()).Ok?
  {
    var t := LaneMeans(summary, idx, cols).value.body;
    LaneNumbers(summary, idx, cols);
    UnitlessColumns();
    NumbersGetUnits(show, t);
  }

  /** With the fixed unit tables the lane level exists exactly when the
      lane means do: every converted column holds numbers. Otherwise it
      fails as they do. */
  lemma LaneLevelOk(show: real -> string, summary: Table, idx: Table, cols: ColumnSets)
    requires summary.Valid() && idx.Valid() && LaneSchema(cols)
    ensures LaneLevel(show, summary, idx, cols, GetMetrics()).Ok? <==> LaneMeans(summary, idx, cols).Ok?
    ensures LaneLevel(show, summary, idx, cols, GetMetrics()).Err? ==>
      LaneLevel(show, summary, idx, cols, GetMetrics()).error == LaneMeans(summary, idx, cols).error
  {
    if LaneMeans(summary, idx, cols).Ok? {
      LaneLevelOkIf(show, summary, idx, cols);
    }
  }

  /** The lane level is the lane table with the unit layer applied. */
  lemma LaneLevelParts(show: real -> string, summary: Table, idx: Table, cols: ColumnSets)
    requires summary.Valid() && idx.Valid() && LaneLevel(show, summary, idx, cols, GetMetrics()).Ok?
    ensures LaneMeans(summary, idx, cols).Ok?
    ensures var means := LaneMeans(summary, idx, cols).value;
      && WithUnits(show, means.body, GetMetrics()).Ok?
      && LaneLevel(show, summary, idx, cols, GetMetrics()).value ==
           Indexed("lane", means.keys, WithUnits(show, means.body, GetMetrics()).value)
  {
  }

  /** The text the unit layer makes of a number `a` in column `c`: converted
      (when registered) and then tagged with its unit (when it has one). */
  function UnitValue(show: real -> string, c: string, a: real): (r: Cell)
    ensures var m := GetMetrics();
      && (c !in m.units ==> r == Real(a))
      && (c in m.units && c !in m.convert ==> r == Tagged(show(a), m.units[c]))
      && (c in m.convert ==> r == Tagged(show(Exact(a, m.convert[c].value, m.convert[c].op)), m.units[c]))
  {
    var m := GetMetrics();
    if c in m.convert then Tagged(show(Exact(a, m.convert[c].value, m.convert[c].op)), m.units[c])
    else if c in m.units then Tagged(show(a), m.units[c])
    else Real(a)
  }

  /** The unit layer on a finite number. */
  lemma UnitValueCell(show: real -> string, t: Table, c: string, i: nat, a: real)
    requires t.Valid() && c in t.columns && i < t.height && WithUnits(show, t, GetMetrics()).Ok?
    requires t.data[c][i] == Real(a)
    ensures c in WithUnits(show, t, GetMetrics()).value.data
    ensures WithUnits(show, t, GetMetrics()).value.data[c][i] == UnitValue(show, c, a)
  {
    WithUnitsCell(show, t, c, i);
    if c in GetMetrics().convert {
      WithUnitsConverted(show, t, c, i, a);
    }
  }

  /** The fixed tables on the averaged lane metrics: densities in
      thousands, read counts in millions, rates as they are, each tagged. */
  lemma LaneUnitValues(show: real -> string, a: real)
    ensures UnitValue(show, "error", a) == Tagged(show(a), "%")
    ensures UnitValue(show, "cluster_density", a) == Tagged(show(a / 1000.0), "Kbp/mm^2")
    ensures UnitValue(show, "reads_passing_filter", a) == Tagged(show(a / 1000000.0), "Mbp")
    ensures UnitValue(show, "reads", a) == Tagged(show(a / 1000000.0), "Mbp")
    ensures UnitValue(show, "quality", a) == Tagged(show(a), "%")
  {
    ConvertedColumns();
    PercentColumns();
  }

  /** Every lane metric but density-PF holds, on row `i`, the unit
      layer's text of the mean of that column over lane `keys[i]`'s rows. */
  lemma LaneLevelMetric(show: real -> string, summary: Table, idx: Table, cols: ColumnSets, c: string, i: nat)
    requires summary.Valid() && idx.Valid() && LaneSchema(cols) && LaneLevel(show, summary, idx, cols, GetMetrics()).Ok?
    requires i < |LaneLevel(show, summary, idx, cols, GetMetrics()).value.keys|
    requires c in LaneMetrics(cols) && c != "cluster_density_passing_filter"
    ensures "lane" in summary.columns && c in summary.columns
    ensures var r := LaneLevel(show, summary, idx, cols, GetMetrics()).value;
      var cs := Pick(summary.data[c], summary.data["lane"], r.keys[i]);
      && |cs| > 0
      && c in r.body.data
      && r.body.data[c][i] == UnitValue(show, c, SumReals(Reals(cs)) / |cs| as real)
  {
    LaneLevelParts(show, summary, idx, cols);
    LaneMeansShape(summary, idx, cols);
    var means := LaneMeans(summary, idx, cols).value;
    var k := means.keys[i];
    LaneMeansMetric(summary, idx, cols, c, i);
    LaneMeanValue(summary, c, k);
    var cs := Pick(summary.data[c], summary.data["lane"], k);
    UnitValueCell(show, means.body, c, i, SumReals(Reals(cs)) / |cs| as real);
  }

  /** The lane level has one row per distinct lane, in order of first
      appearance, labelled and indexed by `lane`; its columns are the lane
      metrics, then `lane`, then `undetermined_indices`. */
  lemma LaneLevelShape(show: real -> string, summary: Table, idx: Table, cols: ColumnSets)
    requires summary.Valid() && idx.Valid() && LaneSchema(cols) && LaneLevel(show, summary, idx, cols, GetMetrics()).Ok?
    ensures "lane" in summary.columns
    ensures var r := LaneLevel(show, summary, idx, cols, GetMetrics()).value;
      && r.name == "lane"
      && r.keys == Dedup(summary.data["lane"])
      && r.body.columns == LaneMetrics(cols) + ["lane"] + ["undetermined_indices"]
  {
    LaneLevelParts(show, summary, idx, cols);
    LaneMeansShape(summary, idx, cols);
  }

  /** Row `i`'s `lane` cell is its lane label, as it is (no unit). */
  lemma LaneLevelLane(show: real -> string, summary: Table, idx: Table, cols: ColumnSets, i: nat)
    requires summary.Valid() && idx.Valid() && LaneSchema(cols) && LaneLevel(show, summary, idx, cols, GetMetrics()).Ok?
    requires i < |LaneLevel(show, summary, idx, cols, GetMetrics()).value.keys|
    ensures var r := LaneLevel(show, summary, idx, cols, GetMetrics()).value;
      "lane" in r.body.data && r.body.data["lane"][i] == r.keys[i]
  {
    LaneLevelParts(show, summary, idx, cols);
    LaneMeansShape(summary, idx, cols);
    LaneMeansLane(summary, idx, cols, i);
    UnitlessColumns();
    WithUnitsCell(show, LaneMeans(summary, idx, cols).value.body, "lane", i);
  }

  /** The text of an undetermined share: 100 minus the summed
      `index_reads_passing_filter` of the lane's samples, `nan` for a lane
      without samples. */
  lemma ShareText(show: real -> string, idx: Table, k: Cell)
    requires idx.Valid() && "lane" in idx.columns && "index_reads_passing_filter" in idx.columns
    ensures Tagged(Str(show, LaneShare(idx, k)), "%") ==
      if k in idx.data["lane"]
      then Tagged(show(100.0 - SumReals(Reals(Pick(idx.data["index_reads_passing_filter"], idx.data["lane"], k)))), "%")
      else Tagged("nan", "%")
  {
  }

  /** Row `i`'s undetermined share of lane `keys[i]`, in percent (its text
      is given by `ShareText`). */
  lemma LaneLevelShare(show: real -> string, summary: Table, idx: Table, cols: ColumnSets, i: nat)
    requires summary.Valid() && idx.Valid() && LaneSchema(cols) && LaneLevel(show, summary, idx, cols, GetMetrics()).Ok?
    requires i < |LaneLevel(show, summary, idx, cols, GetMetrics()).value.keys|
    ensures "lane" in idx.columns && "index_reads_passing_filter" in idx.columns
    ensures var r := LaneLevel(show, summary, idx, cols, GetMetrics()).value;
      var k := r.keys[i];
      && "undetermined_indices" in r.body.data
      && r.body.data["undetermined_indices"][i] == Tagged(Str(show, LaneShare(idx, k)), "%")
  {
    LaneLevelParts(show, summary, idx, cols);
    LaneMeansShape(summary, idx, cols);
    LaneMeansLane(summary, idx, cols, i);
    PercentColumns();
    WithUnitsCell(show, LaneMeans(summary, idx, cols).value.body, "undetermined_indices", i);
  }

  /** The percent text of the ratio `a / b` of two finite means: the
      exact value times 100, or `nan` / an infinity when `b` is 0. */
  function RatioText(show: real -> string, a: real, b: real): string {
    if b != 0.0 then show(a / b * 100.0)
    else if a == 0.0 then "nan"
    else if a < 0.0 then "-inf"
    else "inf"
  }

  /** Line 182 then the `* 100` conversion give that text. */
  lemma RatioCalc(show: real -> string, a: real, b: real)
    ensures Calc(show, Divide(Real(a), Real(b)), 100, "*") == Ok(RatioText(show, a, b))
  {
    if b != 0.0 {
      CalcFinite(show, a / b, 100, "*");
    }
  }

  /** Row `i`'s density-PF is the percentage of lane `keys[i]`'s mean
      density-PF over its mean density. */
  lemma LaneLevelRatio(show: real -> string, summary: Table, idx: Table, cols: ColumnSets, i: nat)
    requires summary.Valid() && idx.Valid() && LaneSchema(cols) && LaneLevel(show, summary, idx, cols, GetMetrics()).Ok?
    requires i < |LaneLevel(show, summary, idx, cols, GetMetrics()).value.keys|
    ensures "lane" in summary.columns && "cluster_density" in summary.columns
    ensures "cluster_density_passing_filter" in summary.columns
    ensures var r := LaneLevel(show, summary, idx, cols, GetMetrics()).value;
      var k := r.keys[i];
      var pf := Pick(summary.data["cluster_density_passing_filter"], summary.data["lane"], k);
      var density := Pick(summary.data["cluster_density"], summary.data["lane"], k);
      && |pf| > 0 && |density| > 0
      && "cluster_density_passing_filter" in r.body.data
      && r.body.data["cluster_density_passing_filter"][i] ==
           Tagged(RatioText(show, SumReals(Reals(pf)) / |pf| as real, SumReals(Reals(density)) / |density| as real), "%")
  {
    LaneLevelParts(show, summary, idx, cols);
    LaneMeansShape(summary, idx, cols);
    var means := LaneMeans(summary, idx, cols).value;
    var k := means.keys[i];
    LaneMeansRatio(summary, idx, cols, i);
    LaneMeanValue(summary, "cluster_density_passing_filter", k);
    LaneMeanValue(summary, "cluster_density", k);
    var pf := Pick(summary.data["cluster_density_passing_filter"], summary.data["lane"], k);
    var density := Pick(summary.data["cluster_density"], summary.data["lane"], k);
    RatioCalc(show, SumReals(Reals(pf)) / |pf| as real, SumReals(Reals(density)) / |density| as real);
    ConvertedColumns();
    WithUnitsCell(show, means.body, "cluster_density_passing_filter", i);
  }

  // ---------------------------------------------------------------------
  // Cross-read level (lines 187-191)

  /** `get_xread_level_metrics`: the cross-read means joined on the read
      number with the per-read scalars, `read_number` restored as a column;
      no unit is added. */
  function XreadLevel(xread: Indexed, summaryRead: Indexed): (r: Indexed)
    requires xread.Valid() && summaryRead.Valid()
    ensures r.Valid() && r.name == xread.name
  {
    IndexToColumn(Merge(xread, summaryRead))
  }

  /** Row `i` of the cross-read level is the `i`-th matching pair of a
      cross-read row and a per-read row with the same read number: it has
      that read number as label and as `read_number` column, and every other
      cell is copied from the pair (no unit is added). */
  lemma XreadLevelRows(xread: Indexed, summaryRead: Indexed, i: nat)
    requires xread.Valid() && summaryRead.Valid()
    requires i < |XreadLevel(xread, summaryRead).keys|
    ensures var ps := JoinPairs(xread.keys, summaryRead.keys);
      i < |ps| && ps[i].0 < |xread.keys| && ps[i].1 < |summaryRead.keys|
    ensures var r := XreadLevel(xread, summaryRead);
      var p := JoinPairs(xread.keys, summaryRead.keys)[i];
      && r.keys[i] == xread.keys[p.0] == summaryRead.keys[p.1]
      && xread.name in r.body.data && r.body.data[xread.name][i] == r.keys[i]
      && forall c :: c in r.body.data && c != xread.name ==>
           r.body.data[c][i] == if c in xread.body.data then xread.body.data[c][p.0] else summaryRead.body.data[c][p.1]
  {
  }

  /** Its columns are the cross-read columns, then the per-read columns,
      then the index name; it has exactly one row per matching pair, and
      every pair of rows with equal read numbers is one of them. */
  lemma XreadLevelJoin(xread: Indexed, summaryRead: Indexed)
    requires xread.Valid() && summaryRead.Valid()
    ensures var r := XreadLevel(xread, summaryRead);
      && r.name == xread.name
      && r.body.columns == AddName(Dedup(xread.body.columns + summaryRead.body.columns), xread.name)
      && |r.keys| == |JoinPairs(xread.keys, summaryRead.keys)|
    ensures forall a, b :: 0 <= a < |xread.keys| && 0 <= b < |summaryRead.keys| && xread.keys[a] == summaryRead.keys[b] ==>
      (a, b) in JoinPairs(xread.keys, summaryRead.keys)
  {
    forall a, b | 0 <= a < |xread.keys| && 0 <= b < |summaryRead.keys| && xread.keys[a] == summaryRead.keys[b]
      ensures (a, b) in JoinPairs(xread.keys, summaryRead.keys)
    {
      JoinPairsComplete(xread.keys, summaryRead.keys, a, b);
    }
  }

  // ---------------------------------------------------------------------
  // Read, read-yield and sample levels (lines 193-220)

  /** The base and read columns, then `read_number`. */
  function ReadSelection(cols: ColumnSets): seq<string> {
    Keys(cols.base + cols.read) + ["read_number"]
  }

  /** The base and read-yield columns, then `read_number`. */
  function YieldSelection(cols: ColumnSets): seq<string> {
    Keys(cols.base + cols.readYield) + ["read_number"]
  }

  /** `t[names]` then the unit layer, as lines 199-201 and 210-212 do. */
  function SelectWithUnits(show: real -> string, t: Table, names: seq<string>, m: Metrics): (r: Result<Table>)
    requires t.Valid()
    ensures r.Ok? ==> r.value.Valid() && r.value.columns == Dedup(names) && r.value.height == t.height
  {
    var sel :- Select(t, names);
    WithUnits(show, sel, m)
  }

  /** With the fixed unit tables the selection gets its units exactly
      when every selected column exists and `calc` accepts every cell of
      the selected converted columns; a missing column fails first. */
  lemma SelectWithUnitsOk(show: real -> string, t: Table, names: seq<string>)
    requires t.Valid()
    ensures var m := GetMetrics();
      SelectWithUnits(show, t, names, m).Ok? <==>
        && (forall c :: c in names ==> c in t.columns)
        && (forall c, i :: c in names && c in m.convert && 0 <= i < t.height ==>
              Calc(show, t.data[c][i], m.convert[c].value, m.convert[c].op).Ok?)
    ensures Select(t, names).Err? ==> SelectWithUnits(show, t, names, GetMetrics()) == Err(Select(t, names).error)
  {
    var m := GetMetrics();
    var sel := Select(t, names);
    if sel.Ok? {
      var s := sel.value;
      ConvertTableOk(show, s, m.convert);
      forall c | c in s.columns && c in m.convert
        ensures ConvertColumn(show, c, s.data[c], m.convert).Ok? <==>
          forall i :: 0 <= i < t.height ==> Calc(show, t.data[c][i], m.convert[c].value, m.convert[c].op).Ok?
      {
        assert s.data[c] == t.data[c];
      }
    }
  }

  /** A selection of columns none of which is converted gets its units
      exactly when every selected column exists. */
  lemma SelectUnconverted(show: real -> string, t: Table, names: seq<string>)
    requires t.Valid() && forall c :: c in names ==> c !in GetMetrics().convert
    ensures SelectWithUnits(show, t, names, GetMetrics()).Ok? <==> forall c :: c in names ==> c in t.columns
  {
    SelectWithUnitsOk(show, t, names);
  }

  /** Each selected cell after the unit layer, as `WithUnitsCell` states it. */
  lemma SelectWithUnitsCell(show: real -> string, t: Table, names: seq<string>, c: string, i: nat)
    requires t.Valid() && SelectWithUnits(show, t, names, GetMetrics()).Ok? && c in names && i < t.height
    ensures c in t.columns
    ensures
      var m := GetMetrics();
      var r := SelectWithUnits(show, t, names, m).value;
      var x := t.data[c][i];
      && c in r.data && i < |r.data[c]|
      && (c !in m.units ==> r.data[c][i] == x)
      && (c in m.units && c !in m.convert ==> r.data[c][i] == Tagged(Str(show, x), m.units[c]))
      && (c in m.convert ==>
            Calc(show, x, m.convert[c].value, m.convert[c].op).Ok? &&
            r.data[c][i] == Tagged(Calc(show, x, m.convert[c].value, m.convert[c].op).value, m.units[c]))
  {
    var s := Select(t, names).value;
    assert c in s.columns;
    WithUnitsCell(show, s, c, i);
  }

  /** `get_read_level_metrics`. */
  function ReadLevel(show: real -> string, summary: Table, cols: ColumnSets, m: Metrics): (r: Result<Table>)
    requires summary.Valid()
    ensures r.Ok? ==> r.value.Valid() && r.value.height == summary.height
  {
    SelectWithUnits(show, summary, ReadSelection(cols), m)
  }

  /** `get_read_yield_metrics`. */
  function ReadYield(show: real -> string, summary: Table, cols: ColumnSets, m: Metrics): (r: Result<Table>)
    requires summary.Valid()
    ensures r.Ok? ==> r.value.Valid() && r.value.height == summary.height
  {
    SelectWithUnits(show, summary, YieldSelection(cols), m)
  }

  /** The read-level columns of the fixed schema. */
  const ReadNames: seq<string> := ["lane", "reads_aligned", "read_number"]

  /** The read-yield columns of the fixed schema. */
  const YieldNames: seq<string> := ["lane", "yield", "read_number"]

  /** The fixed schema's read and read-yield selections. */
  lemma FixedSelectionNames()
    ensures ReadSelection(GetColumnsName()) == ReadNames
    ensures YieldSelection(GetColumnsName()) == YieldNames
  {
    SelectionLabels();
  }

  /** With the fixed schema the read and read-yield levels select those. */
  lemma FixedReadSelections(show: real -> string, summary: Table, m: Metrics)
    requires summary.Valid()
    ensures ReadLevel(show, summary, GetColumnsName(), m) == SelectWithUnits(show, summary, ReadNames, m)
    ensures ReadYield(show, summary, GetColumnsName(), m) == SelectWithUnits(show, summary, YieldNames, m)
  {
    FixedSelectionNames();
  }

  /** `x * 100` fails only on a unit record (a string is repeated). */
  lemma CalcTimes(show: real -> string, x: Cell, v: int)
    ensures Calc(show, x, v, "*").Ok? <==> !x.Tagged?
  {
    CalcFails(show, x, v, "*");
  }

  /** A finite fraction times 100, as text. */
  lemma PercentText(show: real -> string, x: Cell)
    requires x.Num? && IsFinite(x)
    ensures Calc(show, x, 100, "*") == Ok(show(RealOf(x) * 100.0))
  {
    CalcFiniteCell(show, x, 100, "*");
  }

  /** Of the read-level columns only `reads_aligned` is converted, by `* 100`. */
  lemma ReadConversions()
    ensures forall c :: c in ReadNames && c in GetMetrics().convert <==> c == "reads_aligned"
    ensures GetMetrics().convert["reads_aligned"] == Conversion("*", 100)
  {
    ConvertedColumns();
    UnitlessColumns();
  }

  /** The read level exists exactly when the summary has `lane`,
      `reads_aligned` and `read_number` and no `reads_aligned` cell is a
      unit record. */
  lemma ReadLevelOk(show: real -> string, summary: Table)
    requires summary.Valid()
    ensures SelectWithUnits(show, summary, ReadNames, GetMetrics()).Ok? <==>
      && "lane" in summary.columns && "reads_aligned" in summary.columns && "read_number" in summary.columns
      && forall i :: 0 <= i < summary.height ==> !summary.data["reads_aligned"][i].Tagged?
  {
    ReadConversions();
    SelectWithUnitsOk(show, summary, ReadNames);
    forall i | 0 <= i < summary.height && "reads_aligned" in summary.columns
      ensures Calc(show, summary.data["reads_aligned"][i], 100, "*").Ok? <==> !summary.data["reads_aligned"][i].Tagged?
    {
      CalcTimes(show, summary.data["reads_aligned"][i], 100);
    }
  }

  /** Row `i` of the read level, which keeps every summary row: `lane` and
      `read_number` as they are, and `reads_aligned` as a percentage. */
  lemma ReadLevelRow(show: real -> string, summary: Table, i: nat)
    requires summary.Valid() && SelectWithUnits(show, summary, ReadNames, GetMetrics()).Ok? && i < summary.height
    ensures "lane" in summary.columns && "reads_aligned" in summary.columns && "read_number" in summary.columns
    ensures var r := SelectWithUnits(show, summary, ReadNames, GetMetrics()).value;
      var x := summary.data["reads_aligned"][i];
      && r.height == summary.height
      && r.data["lane"][i] == summary.data["lane"][i]
      && r.data["read_number"][i] == summary.data["read_number"][i]
      && Calc(show, x, 100, "*").Ok?
      && r.data["reads_aligned"][i] == Tagged(Calc(show, x, 100, "*").value, "%")
  {
    ConvertedColumns();
    UnitlessColumns();
    SelectWithUnitsCell(show, summary, ReadNames, "lane", i);
    SelectWithUnitsCell(show, summary, ReadNames, "read_number", i);
    SelectWithUnitsCell(show, summary, ReadNames, "reads_aligned", i);
  }

  /** No read-yield column is converted. */
  lemma YieldConversions()
    ensures forall c :: c in YieldNames ==> c !in GetMetrics().convert
  {
    ConvertedColumns();
    UnitlessColumns();
  }

  /** The read-yield level exists exactly when the summary has `lane`,
      `yield` and `read_number`. */
  lemma ReadYieldOk(show: real -> string, summary: Table)
    requires summary.Valid()
    ensures SelectWithUnits(show, summary, YieldNames, GetMetrics()).Ok? <==>
      "lane" in summary.columns && "yield" in summary.columns && "read_number" in summary.columns
  {
    YieldConversions();
    SelectUnconverted(show, summary, YieldNames);
  }

  /** Row `i` of the read-yield level, which keeps every summary row:
      `lane` and `read_number` as they are, the yield's text in Gbp. */
  lemma ReadYieldRow(show: real -> string, summary: Table, i: nat)
    requires summary.Valid() && SelectWithUnits(show, summary, YieldNames, GetMetrics()).Ok? && i < summary.height
    ensures "lane" in summary.columns && "yield" in summary.columns && "read_number" in summary.columns
    ensures var r := SelectWithUnits(show, summary, YieldNames, GetMetrics()).value;
      && r.height == summary.height
      && r.data["lane"][i] == summary.data["lane"][i]
      && r.data["read_number"][i] == summary.data["read_number"][i]
      && r.data["yield"][i] == Tagged(Str(show, summary.data["yield"][i]), "Gbp")
  {
    ConvertedColumns();
    UnitlessColumns();
    SelectWithUnitsCell(show, summary, YieldNames, "lane", i);
    SelectWithUnitsCell(show, summary, YieldNames, "read_number", i);
    SelectWithUnitsCell(show, summary, YieldNames, "yield", i);
  }

  /** `get_sample_level_metrics`. */
  function SampleLevel(show: real -> string, ind: Table, m: Metrics): (r: Result<Table>)
    requires ind.Valid()
    ensures r.Ok? ==> r.value.Valid() && r.value.columns == ind.columns && r.value.height == ind.height
  {
    WithUnits(show, ind, m)
  }

  /** A sample table none of whose columns is converted always gets its
      units: a column with a unit is wrapped cell by cell, any other is kept. */
  lemma SampleLevelCells(show: real -> string, ind: Table)
    requires ind.Valid() && forall c :: c in ind.columns ==> c !in GetMetrics().convert
    ensures SampleLevel(show, ind, GetMetrics()).Ok?
    ensures var m := GetMetrics();
      var r := SampleLevel(show, ind, m).value;
      forall c, i :: c in ind.columns && 0 <= i < ind.height ==>
        && c in r.data
        && r.data[c][i] == if c in m.units then Tagged(Str(show, ind.data[c][i]), m.units[c]) else ind.data[c][i]
  {
    NumbersGetUnits(show, ind);
    forall c, i | c in ind.columns && 0 <= i < ind.height
      ensures var m := GetMetrics();
        var r := SampleLevel(show, ind, m).value;
        c in r.data && r.data[c][i] == if c in m.units then Tagged(Str(show, ind.data[c][i]), m.units[c]) else ind.data[c][i]
    {
      WithUnitsCell(show, ind, c, i);
    }
  }

  // ---------------------------------------------------------------------
  // Run level (line 235)

  /** `pd.DataFrame(data={"number_of_cycles": int(n)})` as written: a frame
      built from scalars alone, without an index, raises. */
  function RunLevelAsWritten(cycles: int): (r: Result<Table>)
    ensures r == Err(ScalarsNeedIndex)
  {
    Err(ScalarsNeedIndex)
  }

  /** The evidently intended run table: one row holding the cycle count. */
  function RunLevel(cycles: int): (t: Table)
    ensures t.Valid() && t.columns == ["number_of_cycles"] && t.height == 1
    ensures t.data["number_of_cycles"] == [Real(cycles as real)]
  {
    Table(["number_of_cycles"], map["number_of_cycles" := [Real(cycles as real)]], 1)
  }
}

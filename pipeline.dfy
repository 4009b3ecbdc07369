/** The two driver steps: the frames `get_interop_info` builds from the
    provider's summaries (lines 93-125), and the six output tables
    `parse_interop_info` derives from them (lines 222-237). */
module Pipeline {
  import opened Seqs
  import opened Cells
  import opened Results
  import opened Frames
  import opened Provider
  import opened Schema
  import opened Walkers
  import opened IndexWalker
  import opened Units
  import opened Metrics

  // ---------------------------------------------------------------------
  // get_interop_info (lines 93-125)

  /** The frames `get_interop_info` returns, less the run-folder handle:
      the run summary, the per-read scalars, the sample walk, the
      cross-read means and the usable cycle count. */
  datatype InteropDfs = InteropDfs(summary: Table, summaryRead: Indexed, idx: Table, xread: Indexed, cycles: int) {
    predicate Valid() {
      summary.Valid() && summaryRead.Valid() && idx.Valid() && xread.Valid()
    }
  }

  /** The frames, built in the order the source builds them; the first
      step that raises decides the error. */
  function InteropInfo(s: RunSummary, idx: IndexFlowcellSummary, cycles: int, cols: ColumnSets): (r: Result<InteropDfs>)
    requires s.Valid() && Distinct(Keys(cols.summaryRead))
    ensures r.Ok? ==> r.value.Valid() && r.value.cycles == cycles && r.value.summary == SavSummary(s, cols.summary)
  {
    var summary := SavSummary(s, cols.summary);
    var summaryRead :- SummaryRead(s, cols.summaryRead);
    var ind :- IndexSummary(idx, cols.idx);
    var xread :- Xread(summary, cols);
    Ok(InteropDfs(summary, summaryRead, ind, xread, cycles))
  }

  /** `get_interop_info` from the summaries on: the walkers, then the
      cross-read groupby. */
  method GetInteropInfo(s: RunSummary, idx: IndexFlowcellSummary, cycles: int, cols: ColumnSets)
    returns (r: Result<InteropDfs>)
    requires s.Valid() && Distinct(Keys(cols.summaryRead))
    ensures r == InteropInfo(s, idx, cycles, cols)
  {
    var summary := ParseSavSummary(s, cols.summary);
    var summaryRead := ParseSummaryReadDf(s, cols.summaryRead);
    if summaryRead.Err? {
      return Err(summaryRead.error);
    }
    var ind := ParseIndexSummary(idx, cols.idx);
    if ind.Err? {
      return Err(ind.error);
    }
    var xread := Xread(summary, cols);
    if xread.Err? {
      return Err(xread.error);
    }
    r := Ok(InteropDfs(summary, summaryRead.value, ind.value, xread.value, cycles));
  }

  /** The frames exist exactly when every step succeeds; otherwise the
      error is that of the first step that fails. */
  lemma InteropInfoOk(s: RunSummary, idx: IndexFlowcellSummary, cycles: int, cols: ColumnSets)
    requires s.Valid() && Distinct(Keys(cols.summaryRead))
    ensures InteropInfo(s, idx, cycles, cols).Ok? <==>
      && SummaryRead(s, cols.summaryRead).Ok?
      && IndexSummary(idx, cols.idx).Ok?
      && Xread(SavSummary(s, cols.summary), cols).Ok?
    ensures var r := InteropInfo(s, idx, cycles, cols);
      r.Err? ==>
        if SummaryRead(s, cols.summaryRead).Err? then r.error == SummaryRead(s, cols.summaryRead).error
        else if IndexSummary(idx, cols.idx).Err? then r.error == IndexSummary(idx, cols.idx).error
        else r.error == Xread(SavSummary(s, cols.summary), cols).error
  {
  }

  /** With the fixed schema the run summary has every column the
      cross-read groupby selects, as soon as the run has a read. */
  lemma FixedXreadColumns(s: RunSummary)
    requires s.Valid() && |s.byRead| > 0
    ensures forall c :: c in XreadSelection(GetColumnsName()) ==> c in SavSummary(s, GetColumnsName().summary).columns
  {
    var cols := GetColumnsName();
    SavSummaryShape(s, cols.summary);
    XreadLabelsIn(cols);
  }

  /** Each cross-read column is a run-summary label or `read_number`. */
  lemma XreadLabelsIn(cols: ColumnSets)
    requires cols == GetColumnsName()
    ensures forall c :: c in XreadSelection(cols) ==> c in SavColumns(cols.summary)
  {
    SelectionLabels();
    var l := Keys(cols.summary);
    assert l == ["lane", "error", "cluster_density", "cluster_density_passing_filter",
      "reads_passing_filter", "reads", "quality", "reads_aligned", "yield", "phasing", "pre_phasing"];
    assert l[6] == "quality" && l[9] == "phasing" && l[10] == "pre_phasing";
  }

  /** With the fixed schema the frames exist exactly when the run has a
      read and the sample walk succeeds: the cross-read groupby then
      always finds its columns. */
  lemma FixedInteropInfoOk(s: RunSummary, idx: IndexFlowcellSummary, cycles: int)
    requires s.Valid()
    ensures Distinct(Keys(GetColumnsName().summaryRead))
    ensures InteropInfo(s, idx, cycles, GetColumnsName()).Ok? <==>
      |s.byRead| > 0 && IndexSummary(idx, GetColumnsName().idx).Ok?
  {
    var cols := GetColumnsName();
    SummaryReadSchema(s);
    InteropInfoOk(s, idx, cycles, cols);
    if |s.byRead| > 0 {
      FixedXreadColumns(s);
      XreadRows(SavSummary(s, cols.summary), cols);
    }
  }

  // ---------------------------------------------------------------------
  // parse_interop_info (lines 222-237)

  /** The six tables of the final summary dictionary. */
  datatype FinalSummary = FinalSummary(
    lane: Indexed, xread: Indexed, read: Table, readYield: Table, sample: Table, run: Table)

  /** The dictionary of the six tables, built in the source's order: the
      first table that raises decides the error. */
  function Assemble(lane: Result<Indexed>, xread: Indexed, read: Result<Table>, readYield: Result<Table>,
                    sample: Result<Table>, run: Result<Table>): (r: Result<FinalSummary>)
    ensures r.Ok? <==> lane.Ok? && read.Ok? && readYield.Ok? && sample.Ok? && run.Ok?
    ensures r.Ok? ==> r.value == FinalSummary(lane.value, xread, read.value, readYield.value, sample.value, run.value)
    ensures r.Err? ==>
      if lane.Err? then r.error == lane.error
      else if read.Err? then r.error == read.error
      else if readYield.Err? then r.error == readYield.error
      else if sample.Err? then r.error == sample.error
      else r.error == run.error
  {
    var l :- lane;
    var rd :- read;
    var ry :- readYield;
    var sm :- sample;
    var rn :- run;
    Ok(FinalSummary(l, xread, rd, ry, sm, rn))
  }

  /** `parse_interop_info` as written: the run table (line 235) always
      raises, so the function never returns. */
  function ParseInteropInfoAsWritten(show: real -> string, dfs: InteropDfs, cols: ColumnSets): (r: Result<FinalSummary>)
    requires dfs.Valid()
    ensures r.Err?
  {
    var m := GetMetrics();
    Assemble(LaneLevel(show, dfs.summary, dfs.idx, cols, m), XreadLevel(dfs.xread, dfs.summaryRead),
      ReadLevel(show, dfs.summary, cols, m), ReadYield(show, dfs.summary, cols, m),
      SampleLevel(show, dfs.idx, m), RunLevelAsWritten(dfs.cycles))
  }

  /** `parse_interop_info` with the run table built as evidently intended. */
  function ParseInteropInfo(show: real -> string, dfs: InteropDfs, cols: ColumnSets): (r: Result<FinalSummary>)
    requires dfs.Valid()
    ensures r.Ok? ==>
      && r.value.lane.Valid() && r.value.lane.name == "lane"
      && r.value.xread.Valid()
      && r.value.read.Valid() && r.value.read.height == dfs.summary.height
      && r.value.readYield.Valid() && r.value.readYield.height == dfs.summary.height
      && r.value.sample.Valid() && r.value.sample.columns == dfs.idx.columns && r.value.sample.height == dfs.idx.height
      && r.value.run.height == 1 && r.value.run.data == map["number_of_cycles" := [Real(dfs.cycles as real)]]
  {
    var m := GetMetrics();
    Assemble(LaneLevel(show, dfs.summary, dfs.idx, cols, m), XreadLevel(dfs.xread, dfs.summaryRead),
      ReadLevel(show, dfs.summary, cols, m), ReadYield(show, dfs.summary, cols, m),
      SampleLevel(show, dfs.idx, m), Ok(RunLevel(dfs.cycles)))
  }

  /** The tables exist exactly when the lane, read, read-yield and sample
      derivations succeed; otherwise the error is the first one's. */
  lemma ParseInteropInfoOk(show: real -> string, dfs: InteropDfs, cols: ColumnSets)
    requires dfs.Valid()
    ensures var m := GetMetrics();
      ParseInteropInfo(show, dfs, cols).Ok? <==>
        && LaneLevel(show, dfs.summary, dfs.idx, cols, m).Ok?
        && ReadLevel(show, dfs.summary, cols, m).Ok?
        && ReadYield(show, dfs.summary, cols, m).Ok?
        && SampleLevel(show, dfs.idx, m).Ok?
    ensures var m := GetMetrics();
      var r := ParseInteropInfo(show, dfs, cols);
      r.Err? ==>
        if LaneLevel(show, dfs.summary, dfs.idx, cols, m).Err? then r.error == LaneLevel(show, dfs.summary, dfs.idx, cols, m).error
        else if ReadLevel(show, dfs.summary, cols, m).Err? then r.error == ReadLevel(show, dfs.summary, cols, m).error
        else if ReadYield(show, dfs.summary, cols, m).Err? then r.error == ReadYield(show, dfs.summary, cols, m).error
        else r.error == SampleLevel(show, dfs.idx, m).error
  {
  }

  /** The tables are the derivations of the frames, each computed once:
      the cross-read table is the merge, never passed through the unit
      layer. */
  lemma ParseInteropInfoTables(show: real -> string, dfs: InteropDfs, cols: ColumnSets)
    requires dfs.Valid() && ParseInteropInfo(show, dfs, cols).Ok?
    ensures var m := GetMetrics();
      var r := ParseInteropInfo(show, dfs, cols).value;
      && LaneLevel(show, dfs.summary, dfs.idx, cols, m) == Ok(r.lane)
      && r.xread == XreadLevel(dfs.xread, dfs.summaryRead)
      && ReadLevel(show, dfs.summary, cols, m) == Ok(r.read)
      && ReadYield(show, dfs.summary, cols, m) == Ok(r.readYield)
      && SampleLevel(show, dfs.idx, m) == Ok(r.sample)
      && r.run == RunLevel(dfs.cycles)
  {
  }

  /** As written the function never returns: whenever the corrected one
      returns, the as-written one raises the scalar-only error, and
      otherwise both raise the same error. */
  lemma ParseInteropInfoFinding(show: real -> string, dfs: InteropDfs, cols: ColumnSets)
    requires dfs.Valid()
    ensures ParseInteropInfoAsWritten(show, dfs, cols).Err?
    ensures ParseInteropInfo(show, dfs, cols).Ok? ==>
      ParseInteropInfoAsWritten(show, dfs, cols) == Err(ScalarsNeedIndex)
    ensures ParseInteropInfo(show, dfs, cols).Err? ==>
      ParseInteropInfoAsWritten(show, dfs, cols) == ParseInteropInfo(show, dfs, cols)
  {
  }
}

/** `parse_index_summary`: the lane x sample walker. Each lane's sample
    records become one frame with a composite `index` key and a 1-based
    `lane`; the frames are stacked in lane order and zero-filled. */
module IndexWalker {
  import opened Seqs
  import opened Cells
  import opened Results
  import opened Frames
  import opened Provider
  import opened Schema

  /** The series of one column over a lane's sample records. */
  function SampleSeries(ss: seq<SampleSummary>, f: SampleField): (r: seq<Cell>)
    ensures |r| == |ss| && forall i :: 0 <= i < |ss| ==> r[i] == ss[i].Get(f)
  {
    seq(|ss|, i requires 0 <= i < |ss| => ss[i].Get(f))
  }

  /** The list `d` of (label, series) pairs for a prefix of the columns. */
  function SampleDict(ss: seq<SampleSummary>, cols: seq<(string, SampleField)>): (d: seq<(string, seq<Cell>)>)
    ensures |d| == |cols| && Keys(d) == Keys(cols)
    ensures forall k :: 0 <= k < |cols| ==> d[k] == (cols[k].0, SampleSeries(ss, cols[k].1))
  {
    seq(|cols|, k requires 0 <= k < |cols| => (cols[k].0, SampleSeries(ss, cols[k].1)))
  }

  lemma SampleDictSnoc(ss: seq<SampleSummary>, cols: seq<(string, SampleField)>, k: nat)
    requires k < |cols|
    ensures SampleDict(ss, cols[..k + 1]) == SampleDict(ss, cols[..k]) + [(cols[k].0, SampleSeries(ss, cols[k].1))]
  {
    assert cols[..k + 1] == cols[..k] + [cols[k]];
  }

  /** In the dict of a lane's (label, series) pairs a label keeps the
      series of its last accessor. */
  lemma {:induction false} SampleDictLast(ss: seq<SampleSummary>, cols: seq<(string, SampleField)>, c: string)
    requires c in Keys(cols)
    ensures c in Keys(SampleDict(ss, cols))
    ensures LastSeries(SampleDict(ss, cols), c) == SampleSeries(ss, LastField(cols, c))
    decreases |cols|
  {
    var n := |cols| - 1;
    var d := SampleDict(ss, cols);
    assert Keys(cols) == Keys(cols[..n]) + [cols[n].0];
    if cols[n].0 != c {
      assert d[..n] == SampleDict(ss, cols[..n]);
      SampleDictLast(ss, cols[..n], c);
    }
  }

  /** `"-".join([x[0], x[1]])` on one row: both parts must be strings. */
  function JoinIndex(a: Cell, b: Cell): (r: Result<Cell>)
    ensures r.Ok? <==> a.Text? && b.Text?
    ensures r.Ok? ==> r.value == Text(a.s + "-" + b.s)
    ensures r.Err? ==> r.error == IndexNotText
  {
    if a.Text? && b.Text? then Ok(Text(a.s + "-" + b.s)) else Err(IndexNotText)
  }

  /** The row-wise `apply` of the join: the first row whose parts are not
      both strings raises. */
  function JoinAll(i1: seq<Cell>, i2: seq<Cell>): (r: Result<seq<Cell>>)
    requires |i1| == |i2|
    ensures r.Ok? <==> forall i :: 0 <= i < |i1| ==> i1[i].Text? && i2[i].Text?
    ensures r.Ok? ==> |r.value| == |i1|
    ensures r.Ok? ==> forall i :: 0 <= i < |i1| ==> r.value[i] == Text(i1[i].s + "-" + i2[i].s)
    ensures r.Err? ==> r.error == IndexNotText
  {
    if i1 == [] then Ok([])
    else
      var n := |i1| - 1;
      var init := JoinAll(i1[..n], i2[..n]);
      var last := JoinIndex(i1[n], i2[n]);
      if init.Err? then init
      else if last.Err? then Err(last.error)
      else Ok(init.value + [last.value])
  }

  /** The value line 75 assigns to `index`: on no rows the row-wise
      `apply` returns the empty two-column selection itself, which pandas
      refuses to store in the single column `index`; otherwise the join. */
  function IndexColumn(i1: seq<Cell>, i2: seq<Cell>): (r: Result<seq<Cell>>)
    requires |i1| == |i2|
    ensures r.Ok? <==> |i1| > 0 && forall i :: 0 <= i < |i1| ==> i1[i].Text? && i2[i].Text?
    ensures r.Ok? ==> r.value == JoinAll(i1, i2).value
    ensures r.Err? ==> r.error == if |i1| == 0 then EmptyIndexApply else IndexNotText
  {
    if |i1| == 0 then Err(EmptyIndexApply) else JoinAll(i1, i2)
  }

  /** `names` lists, once each, the labels, `index` and `lane`, and
      neither `index1` nor `index2`. */
  ghost predicate LaneNames(cols: seq<(string, SampleField)>, names: seq<string>) {
    && Distinct(names)
    && forall c :: c in names <==> (c in Keys(cols) || c == "index" || c == "lane") && c != "index1" && c != "index2"
  }

  /** The columns of every lane frame: the labels, `index` and `lane`,
      without `index1` and `index2`. */
  function LaneColumnsOf(cols: seq<(string, SampleField)>): (names: seq<string>)
    ensures LaneNames(cols, names)
    ensures "index" in names && "lane" in names && "index1" !in names && "index2" !in names
  {
    Keep(Dedup(Keys(cols) + ["index", "lane"]), ["index1", "index2"])
  }

  /** The sample records of lane `n`. */
  function Samples(idx: IndexFlowcellSummary, n: nat): seq<SampleSummary>
    requires n < |idx.lanes|
  {
    idx.lanes[n].samples
  }

  /** Every sample of the lane has string `index1` and `index2` parts. */
  predicate IndexPartsText(ss: seq<SampleSummary>, f1: SampleField, f2: SampleField) {
    forall i :: 0 <= i < |ss| ==> ss[i].Get(f1).Text? && ss[i].Get(f2).Text?
  }

  /** The `index` keys of a lane: `index1 + "-" + index2` per sample. */
  function IndexKeys(ss: seq<SampleSummary>, f1: SampleField, f2: SampleField): (r: seq<Cell>)
    requires IndexPartsText(ss, f1, f2)
    ensures |r| == |ss|
    ensures forall i :: 0 <= i < |ss| ==> r[i] == Text(ss[i].Get(f1).s + "-" + ss[i].Get(f2).s)
  {
    seq(|ss|, i requires 0 <= i < |ss| => Text(ss[i].Get(f1).s + "-" + ss[i].Get(f2).s))
  }

  /** Column `c` of lane `n`'s frame: `lane` is n + 1 throughout, `index`
      holds the keys, and a label holds the series of its last accessor. */
  function LaneSeriesOf(ss: seq<SampleSummary>, cols: seq<(string, SampleField)>, names: seq<string>, n: nat, keys: seq<Cell>, c: string): (r: seq<Cell>)
    requires LaneNames(cols, names) && |keys| == |ss| && c in names
    ensures |r| == |ss|
  {
    if c == "lane" then Repeat(Real((n + 1) as real), |ss|)
    else if c == "index" then keys
    else SampleSeries(ss, LastField(cols, c))
  }

  /** Lane `n`'s frame once its keys are joined. */
  function LaneTable(ss: seq<SampleSummary>, cols: seq<(string, SampleField)>, names: seq<string>, n: nat, keys: seq<Cell>): (t: Table)
    requires LaneNames(cols, names) && |keys| == |ss|
    ensures t.Valid() && t.columns == names && t.height == |ss|
  {
    Table(names, map c | c in names :: LaneSeriesOf(ss, cols, names, n, keys, c), |ss|)
  }

  /** The frame of lane `n`: one row per sample record, the labels other
      than `index1`/`index2`, then `index` and `lane`. A missing `index1` or
      `index2` column, a lane without samples, or a sample whose parts are
      not strings, is an error. */
  function LaneFrame(idx: IndexFlowcellSummary, cols: seq<(string, SampleField)>, names: seq<string>, n: nat): (r: Result<Table>)
    requires n < |idx.lanes| && LaneNames(cols, names)
    ensures r.Ok? ==> r.value.Valid() && r.value.columns == names
    ensures r.Ok? ==> r.value.height == |Samples(idx, n)|
  {
    var ss := Samples(idx, n);
    if "index1" !in Keys(cols) then Err(MissingColumn("index1"))
    else if "index2" !in Keys(cols) then Err(MissingColumn("index2"))
    else
      var f1, f2 := LastField(cols, "index1"), LastField(cols, "index2");
      if |ss| == 0 then Err(EmptyIndexApply)
      else if !IndexPartsText(ss, f1, f2) then Err(IndexNotText)
      else Ok(LaneTable(ss, cols, names, n, IndexKeys(ss, f1, f2)))
  }

  /** The frame of every lane, or the error it raises, in lane order. */
  function LaneResults(idx: IndexFlowcellSummary, cols: seq<(string, SampleField)>, names: seq<string>): (rs: seq<Result<Table>>)
    requires LaneNames(cols, names)
    ensures |rs| == |idx.lanes|
    ensures forall j :: 0 <= j < |rs| ==> rs[j] == LaneFrame(idx, cols, names, j)
  {
    seq(|idx.lanes|, j requires 0 <= j < |idx.lanes| => LaneFrame(idx, cols, names, j))
  }

  /** Every lane frame has the same columns. */
  lemma LaneResultsUniform(idx: IndexFlowcellSummary, cols: seq<(string, SampleField)>, names: seq<string>)
    requires LaneNames(cols, names)
    ensures UniformResults(LaneResults(idx, cols, names), names)
  {
  }

  /** The table `parse_index_summary` returns: the lane frames stacked in
      lane order and zero-filled, or the error of the first failing lane. */
  function IndexSummary(idx: IndexFlowcellSummary, cols: seq<(string, SampleField)>): (r: Result<Table>)
    ensures r.Ok? ==> r.value.Valid()
  {
    var names := LaneColumnsOf(cols);
    LaneResultsUniform(idx, cols, names);
    StackResults(LaneResults(idx, cols, names), names)
  }

  method ParseIndexSummary(idx: IndexFlowcellSummary, cols: seq<(string, SampleField)>) returns (r: Result<Table>)
    ensures r == IndexSummary(idx, cols)
  {
    ghost var names := LaneColumnsOf(cols);
    ghost var rs := LaneResults(idx, cols, names);
    LaneResultsUniform(idx, cols, names);
    StackedPrefixStart(rs, names);
    var acc := Empty;
    var n := 0;
    while n < |idx.lanes|
      invariant StackedPrefix(rs, names, n, acc)
    {
      var df := BuildLaneFrame(idx, cols, n);
      StackedPrefixStep(rs, names, n, acc);
      if df.Err? {
        return Err(df.error);
      }
      acc := Accumulate(acc, df.value);
      n := n + 1;
    }
    StackedPrefixEnd(rs, names, acc);
    r := Ok(FillNaTable(acc));
  }

  /** The body of the lane loop (lines 70-77): the list `d` of (label,
      series) pairs built column by column, then the frame made from it. */
  method BuildLaneFrame(idx: IndexFlowcellSummary, cols: seq<(string, SampleField)>, n: nat) returns (r: Result<Table>)
    requires n < |idx.lanes|
    ensures r == LaneFrame(idx, cols, LaneColumnsOf(cols), n)
  {
    var ss := Samples(idx, n);
    var d: seq<(string, seq<Cell>)> := [];
    var k := 0;
    while k < |cols|
      invariant 0 <= k <= |cols|
      invariant d == SampleDict(ss, cols[..k])
    {
      SampleDictSnoc(ss, cols, k);
      d := d + [(cols[k].0, SampleSeries(ss, cols[k].1))];
      k := k + 1;
    }
    assert cols[..k] == cols;
    r := FrameOfLane(d, idx, cols, n);
  }

  /** Lines 74-77: the frame of the dict, `index` joined from `index1` and
      `index2`, `lane = n + 1`, then `index1` and `index2` dropped. */
  method FrameOfLane(d: seq<(string, seq<Cell>)>, idx: IndexFlowcellSummary, cols: seq<(string, SampleField)>, n: nat)
    returns (r: Result<Table>)
    requires n < |idx.lanes| && d == SampleDict(Samples(idx, n), cols)
    ensures r == LaneFrame(idx, cols, LaneColumnsOf(cols), n)
  {
    var ss := Samples(idx, n);
    var df := FromDict(d, |ss|);
    DictFrame(ss, cols);
    SelectPair(df, "index1", "index2");
    var pair :- Select(df, ["index1", "index2"]);
    var f1, f2 := LastField(cols, "index1"), LastField(cols, "index2");
    JoinKeys(ss, f1, f2);
    var keys :- IndexColumn(pair.data["index1"], pair.data["index2"]);
    df := SetColumn(df, "index", keys);
    df := SetColumn(df, "lane", Repeat(Real((n + 1) as real), |ss|));
    r := Drop(df, ["index1", "index2"]);
    LaneTableSteps(ss, cols, n, keys);
  }

  /** The frame of a lane's dict has the labels in first-occurrence order,
      each with the series of its last accessor. */
  lemma DictFrame(ss: seq<SampleSummary>, cols: seq<(string, SampleField)>)
    ensures FromDict(SampleDict(ss, cols), |ss|).columns == Dedup(Keys(cols))
    ensures forall c :: c in Keys(cols) ==>
      c in FromDict(SampleDict(ss, cols), |ss|).data &&
      FromDict(SampleDict(ss, cols), |ss|).data[c] == SampleSeries(ss, LastField(cols, c))
  {
    var d := SampleDict(ss, cols);
    var df := FromDict(d, |ss|);
    forall c | c in Keys(cols) ensures c in df.data && df.data[c] == SampleSeries(ss, LastField(cols, c)) {
      SampleDictLast(ss, cols, c);
      assert df.data[c] == LastSeries(d, c);
    }
  }

  /** On a lane's samples the `index` column fails on a lane without
      samples, and otherwise succeeds exactly when every part is a string,
      yielding the keys. */
  lemma JoinKeys(ss: seq<SampleSummary>, f1: SampleField, f2: SampleField)
    ensures IndexColumn(SampleSeries(ss, f1), SampleSeries(ss, f2)) ==
      if |ss| == 0 then Err(EmptyIndexApply)
      else if IndexPartsText(ss, f1, f2) then Ok(IndexKeys(ss, f1, f2)) else Err(IndexNotText)
  {
    var j := JoinAll(SampleSeries(ss, f1), SampleSeries(ss, f2));
    if IndexPartsText(ss, f1, f2) {
      assert j.value == IndexKeys(ss, f1, f2);
    }
  }

  /** Setting `index` and then `lane` on the dict's frame appends them to
      its columns unless they are labels already. */
  lemma AddedColumns(labels: seq<string>)
    ensures AddName(AddName(Dedup(labels), "index"), "lane") == Dedup(labels + ["index", "lane"])
  {
    DedupSnoc(labels, "index");
    DedupSnoc(labels + ["index"], "lane");
    assert labels + ["index"] + ["lane"] == labels + ["index", "lane"];
  }

  /** Adding `index` and `lane` to the dict's frame and dropping `index1`
      and `index2` gives the lane frame. */
  lemma LaneTableSteps(ss: seq<SampleSummary>, cols: seq<(string, SampleField)>, n: nat, keys: seq<Cell>)
    requires "index1" in Keys(cols) && "index2" in Keys(cols) && |keys| == |ss|
    ensures
      var df := FromDict(SampleDict(ss, cols), |ss|);
      var df2 := SetColumn(SetColumn(df, "index", keys), "lane", Repeat(Real((n + 1) as real), |ss|));
      Drop(df2, ["index1", "index2"]) == Ok(LaneTable(ss, cols, LaneColumnsOf(cols), n, keys))
  {
    var df := FromDict(SampleDict(ss, cols), |ss|);
    var df2 := SetColumn(SetColumn(df, "index", keys), "lane", Repeat(Real((n + 1) as real), |ss|));
    DictFrame(ss, cols);
    AddedColumns(Keys(cols));
    var r := Drop(df2, ["index1", "index2"]);
    assert r.Ok?;
    var names := LaneColumnsOf(cols);
    var t := LaneTable(ss, cols, names, n, keys);
    forall c | c in names ensures r.value.data[c] == t.data[c] {
      assert r.value.data[c] == df2.data[c];
      if c != "lane" && c != "index" {
        assert c in Keys(cols);
      }
    }
    TableEq(r.value, t);
  }

  /** The number of sample records of the lanes before lane `n`. */
  function SamplesBefore(idx: IndexFlowcellSummary, n: nat): nat
    requires n <= |idx.lanes|
  {
    if n == 0 then 0 else SamplesBefore(idx, n - 1) + |Samples(idx, n - 1)|
  }

  /** The lane frames of a successful walk. */
  function IndexFrames(idx: IndexFlowcellSummary, cols: seq<(string, SampleField)>): (fs: seq<Table>)
    requires IndexSummary(idx, cols).Ok?
    ensures |fs| == |idx.lanes| && SameColumns(fs, LaneColumnsOf(cols))
    ensures IndexSummary(idx, cols).value == FillNaTable(Stack(fs, LaneColumnsOf(cols)))
    ensures forall n :: 0 <= n < |fs| ==> fs[n].height == |Samples(idx, n)|
    ensures fs != [] ==> IndexSummary(idx, cols).value.columns == LaneColumnsOf(cols)
    ensures IndexSummary(idx, cols).value.height == TotalHeight(fs)
  {
    var names := LaneColumnsOf(cols);
    var rs := LaneResults(idx, cols, names);
    LaneResultsUniform(idx, cols, names);
    StackResultsCollect(rs, names);
    Collect(rs).value
  }

  /** Frame `n` of a successful walk is the frame of lane `n`. */
  lemma IndexFrameAt(idx: IndexFlowcellSummary, cols: seq<(string, SampleField)>, n: nat)
    requires IndexSummary(idx, cols).Ok? && n < |idx.lanes|
    ensures Ok(IndexFrames(idx, cols)[n]) == LaneFrame(idx, cols, LaneColumnsOf(cols), n)
  {
    var names := LaneColumnsOf(cols);
    var rs := LaneResults(idx, cols, names);
    LaneResultsUniform(idx, cols, names);
    StackResultsCollect(rs, names);
    assert IndexFrames(idx, cols)[n] == rs[n].value;
  }

  /** A lane frame is built exactly when both index columns are labels, the
      lane has a sample, and every sample of the lane has string parts for
      them. */
  lemma LaneFrameOk(idx: IndexFlowcellSummary, cols: seq<(string, SampleField)>, names: seq<string>, n: nat)
    requires n < |idx.lanes| && LaneNames(cols, names)
    ensures LaneFrame(idx, cols, names, n).Ok? <==>
      "index1" in Keys(cols) && "index2" in Keys(cols) && |Samples(idx, n)| > 0 &&
      IndexPartsText(Samples(idx, n), LastField(cols, "index1"), LastField(cols, "index2"))
  {
  }

  /** The walk succeeds exactly when there are no lanes, or both `index1`
      and `index2` are columns, every lane has a sample, and every sample of
      every lane has string parts for them. */
  lemma IndexSummaryOk(idx: IndexFlowcellSummary, cols: seq<(string, SampleField)>)
    ensures IndexSummary(idx, cols).Ok? <==>
      || idx.lanes == []
      || ("index1" in Keys(cols) && "index2" in Keys(cols) &&
          forall n :: 0 <= n < |idx.lanes| ==>
            |Samples(idx, n)| > 0 && IndexPartsText(Samples(idx, n), LastField(cols, "index1"), LastField(cols, "index2")))
  {
    var names := LaneColumnsOf(cols);
    var rs := LaneResults(idx, cols, names);
    LaneResultsUniform(idx, cols, names);
    StackResultsCollect(rs, names);
    forall n | 0 <= n < |idx.lanes|
      ensures rs[n].Ok? <==>
        "index1" in Keys(cols) && "index2" in Keys(cols) && |Samples(idx, n)| > 0 && IndexPartsText(Samples(idx, n), LastField(cols, "index1"), LastField(cols, "index2"))
    {
      LaneFrameOk(idx, cols, names, n);
    }
    if idx.lanes != [] {
      LaneFrameOk(idx, cols, names, 0);
    }
  }

  /** With at least one lane, a missing `index1` column fails the walk with
      that name first, then a missing `index2` column. */
  lemma IndexSummaryMissing(idx: IndexFlowcellSummary, cols: seq<(string, SampleField)>)
    requires idx.lanes != []
    ensures "index1" !in Keys(cols) ==> IndexSummary(idx, cols) == Err(MissingColumn("index1"))
    ensures "index1" in Keys(cols) && "index2" !in Keys(cols) ==>
              IndexSummary(idx, cols) == Err(MissingColumn("index2"))
  {
    var names := LaneColumnsOf(cols);
    var rs := LaneResults(idx, cols, names);
    LaneResultsUniform(idx, cols, names);
    StackResultsCollect(rs, names);
    if "index1" !in Keys(cols) || "index2" !in Keys(cols) {
      assert rs[..0] == [];
      CollectFirstErr(rs, 0);
    }
  }

  /** With `index1` and `index2` declared, a lane without samples fails the
      walk when every lane before it has its frame. */
  lemma IndexSummaryEmptyLane(idx: IndexFlowcellSummary, cols: seq<(string, SampleField)>, n: nat)
    requires "index1" in Keys(cols) && "index2" in Keys(cols)
    requires n < |idx.lanes| && Samples(idx, n) == []
    requires forall j :: 0 <= j < n ==> LaneFrame(idx, cols, LaneColumnsOf(cols), j).Ok?
    ensures IndexSummary(idx, cols) == Err(EmptyIndexApply)
  {
    var names := LaneColumnsOf(cols);
    var rs := LaneResults(idx, cols, names);
    LaneResultsUniform(idx, cols, names);
    StackResultsCollect(rs, names);
    var before := rs[..n];
    forall j | 0 <= j < |before| ensures before[j].Ok? {
      assert before[j] == rs[j];
    }
    LaneFrameEmpty(idx, cols, names, n);
    CollectFirstErr(rs, n);
  }

  /** A lane without samples fails at the `index` assignment. */
  lemma LaneFrameEmpty(idx: IndexFlowcellSummary, cols: seq<(string, SampleField)>, names: seq<string>, n: nat)
    requires "index1" in Keys(cols) && "index2" in Keys(cols) && LaneNames(cols, names)
    requires n < |idx.lanes| && Samples(idx, n) == []
    ensures LaneFrame(idx, cols, names, n) == Err(EmptyIndexApply)
  {
  }

  /** The first `n` lane frames hold the samples of the first `n` lanes. */
  lemma {:induction false} IndexPrefixHeight(idx: IndexFlowcellSummary, fs: seq<Table>, n: nat)
    requires |fs| == |idx.lanes| && n <= |fs|
    requires forall j :: 0 <= j < |fs| ==> fs[j].height == |Samples(idx, j)|
    ensures TotalHeight(fs[..n]) == SamplesBefore(idx, n)
    ensures n == |fs| ==> TotalHeight(fs) == SamplesBefore(idx, n)
  {
    assert fs[..|fs|] == fs;
    if n > 0 {
      IndexPrefixHeight(idx, fs, n - 1);
      TotalHeightPrefix(fs, n - 1);
    }
  }

  /** The walk has the lane columns and one row per sample record. */
  lemma IndexSummaryShape(idx: IndexFlowcellSummary, cols: seq<(string, SampleField)>)
    requires IndexSummary(idx, cols).Ok? && idx.lanes != []
    ensures IndexSummary(idx, cols).value.columns == LaneColumnsOf(cols)
    ensures IndexSummary(idx, cols).value.height == SamplesBefore(idx, |idx.lanes|)
  {
    var fs := IndexFrames(idx, cols);
    IndexPrefixHeight(idx, fs, |fs|);
  }

  /** Row `SamplesBefore(n) + i` of the walk is sample `i` of lane `n`,
      zero-filled. */
  lemma IndexSummaryAt(idx: IndexFlowcellSummary, cols: seq<(string, SampleField)>, c: string, n: nat, i: nat, row: nat)
    requires IndexSummary(idx, cols).Ok? && n < |idx.lanes| && i < |Samples(idx, n)|
    requires c in LaneColumnsOf(cols) && row == SamplesBefore(idx, n) + i
    ensures LaneFrame(idx, cols, LaneColumnsOf(cols), n).Ok?
    ensures c in IndexSummary(idx, cols).value.data && row < IndexSummary(idx, cols).value.height
    ensures IndexSummary(idx, cols).value.data[c][row] == FillNa(LaneFrame(idx, cols, LaneColumnsOf(cols), n).value.data[c][i])
  {
    var fs := IndexFrames(idx, cols);
    IndexFrameAt(idx, cols, n);
    IndexPrefixHeight(idx, fs, n);
    FillStackAt(fs, LaneColumnsOf(cols), c, n, i, row);
  }

  /** Lane `n`'s frame, when built, holds `n + 1` under `lane`, the joined
      key under `index`, and each other label's last accessor. */
  lemma LaneFrameCells(idx: IndexFlowcellSummary, cols: seq<(string, SampleField)>, names: seq<string>, n: nat, i: nat)
    requires n < |idx.lanes| && LaneNames(cols, names) && i < |Samples(idx, n)|
    requires LaneFrame(idx, cols, names, n).Ok?
    ensures "index1" in Keys(cols) && "index2" in Keys(cols)
    ensures
      var t := LaneFrame(idx, cols, names, n).value;
      var s := Samples(idx, n)[i];
      && t.data["lane"][i] == Real((n + 1) as real)
      && s.Get(LastField(cols, "index1")).Text? && s.Get(LastField(cols, "index2")).Text?
      && t.data["index"][i] == Text(s.Get(LastField(cols, "index1")).s + "-" + s.Get(LastField(cols, "index2")).s)
      && forall c :: c in names && c != "index" && c != "lane" ==> t.data[c][i] == s.Get(LastField(cols, c))
  {
    var ss := Samples(idx, n);
    var f1, f2 := LastField(cols, "index1"), LastField(cols, "index2");
    var keys := IndexKeys(ss, f1, f2);
    var t := LaneTable(ss, cols, names, n, keys);
    assert LaneFrame(idx, cols, names, n).value == t;
    assert t.data["lane"] == Repeat(Real((n + 1) as real), |ss|);
    assert t.data["index"] == keys;
  }

  /** Row `SamplesBefore(n) + i` of the walk: `lane` is `n + 1`, `index`
      is sample `i`'s `index1 + "-" + index2`, and every other column is
      that sample's field, zero-filled. */
  lemma IndexRowAt(idx: IndexFlowcellSummary, cols: seq<(string, SampleField)>, n: nat, i: nat, row: nat)
    requires IndexSummary(idx, cols).Ok? && n < |idx.lanes| && i < |Samples(idx, n)|
    requires row == SamplesBefore(idx, n) + i
    ensures "index1" in Keys(cols) && "index2" in Keys(cols)
    ensures
      var t := IndexSummary(idx, cols).value;
      var s := Samples(idx, n)[i];
      && row < t.height && "lane" in t.data && "index" in t.data
      && "index1" !in t.data && "index2" !in t.data
      && t.data["lane"][row] == Real((n + 1) as real)
      && s.Get(LastField(cols, "index1")).Text? && s.Get(LastField(cols, "index2")).Text?
      && t.data["index"][row] == Text(s.Get(LastField(cols, "index1")).s + "-" + s.Get(LastField(cols, "index2")).s)
      && forall c :: c in Keys(cols) && c != "index1" && c != "index2" && c != "index" && c != "lane" ==>
           c in t.data && t.data[c][row] == FillNa(s.Get(LastField(cols, c)))
  {
    var names := LaneColumnsOf(cols);
    var t := IndexSummary(idx, cols).value;
    IndexSummaryAt(idx, cols, "lane", n, i, row);
    IndexSummaryAt(idx, cols, "index", n, i, row);
    LaneFrameCells(idx, cols, names, n, i);
    IndexSummaryShape(idx, cols);
    forall c | c in Keys(cols) && c != "index1" && c != "index2" && c != "index" && c != "lane"
      ensures c in t.data && t.data[c][row] == FillNa(Samples(idx, n)[i].Get(LastField(cols, c)))
    {
      IndexSummaryAt(idx, cols, c, n, i, row);
    }
  }
}

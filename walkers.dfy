/** Two of the walkers that flatten the provider's nested summaries into
    frames: read x lane (`parse_sav_summary`) and one row per read
    (`parse_summary_read_df`); lane x sample is module IndexWalker.
    Each is a method with the source's loops, proved equal to a
    specification function; the lemmas below state the row counts, the row
    order and the contents of every row. */
module Walkers {
  import opened Seqs
  import opened Cells
  import opened Results
  import opened Frames
  import opened Provider
  import opened Schema

  // ---------------------------------------------------------------------
  // parse_sav_summary: one row per (read, lane)

  /** The lane records of read `n`: `[summary.at(n).at(lane) for lane in range(lane_count())]`. */
  function LaneRecords(s: RunSummary, n: nat): (rows: seq<LaneSummary>)
    requires s.Valid() && n < |s.byRead|
    ensures |rows| == s.laneCount
  {
    s.byRead[n].lanes[..s.laneCount]
  }

  /** The series of one column over a read's lane records, distributions reduced to their mean. */
  function LaneSeries(rows: seq<LaneSummary>, f: LaneField): (r: seq<Cell>)
    ensures |r| == |rows| && forall i :: 0 <= i < |rows| ==> r[i] == FormatValue(rows[i].Get(f))
  {
    seq(|rows|, i requires 0 <= i < |rows| => FormatValue(rows[i].Get(f)))
  }

  /** The list `d` of (label, series) pairs for a prefix of the columns. */
  function LaneDict(rows: seq<LaneSummary>, cols: seq<(string, LaneField)>): (d: seq<(string, seq<Cell>)>)
    ensures |d| == |cols| && Keys(d) == Keys(cols)
    ensures forall k :: 0 <= k < |cols| ==> d[k] == (cols[k].0, LaneSeries(rows, cols[k].1))
  {
    seq(|cols|, k requires 0 <= k < |cols| => (cols[k].0, LaneSeries(rows, cols[k].1)))
  }

  lemma LaneDictSnoc(rows: seq<LaneSummary>, cols: seq<(string, LaneField)>, k: nat)
    requires k < |cols|
    ensures LaneDict(rows, cols[..k + 1]) == LaneDict(rows, cols[..k]) + [(cols[k].0, LaneSeries(rows, cols[k].1))]
  {
    assert cols[..k + 1] == cols[..k] + [cols[k]];
  }

  /** The columns of every per-read frame: the labels, then `read_number`. */
  function SavColumns(cols: seq<(string, LaneField)>): seq<string> {
    AddName(Dedup(Keys(cols)), "read_number")
  }

  /** Column `c` of read `n`'s frame: `read_number` is n + 1 throughout, and
      a label holds the series of its last accessor over the read's lanes. */
  function ReadSeries(s: RunSummary, cols: seq<(string, LaneField)>, n: nat, c: string): (r: seq<Cell>)
    requires s.Valid() && n < |s.byRead| && c in SavColumns(cols)
    ensures |r| == s.laneCount
  {
    if c == "read_number" then Repeat(Real((n + 1) as real), s.laneCount)
    else LaneSeries(LaneRecords(s, n), LastField(cols, c))
  }

  /** The frame of read `n`: one row per lane, the labels then `read_number`. */
  function ReadFrame(s: RunSummary, cols: seq<(string, LaneField)>, n: nat): (df: Table)
    requires s.Valid() && n < |s.byRead|
    ensures df.Valid() && df.columns == SavColumns(cols) && df.height == s.laneCount
  {
    var names := SavColumns(cols);
    Table(names, map c | c in names :: ReadSeries(s, cols, n, c), s.laneCount)
  }

  /** The frames of the first `m` reads, in read order. */
  function ReadFrames(s: RunSummary, cols: seq<(string, LaneField)>, m: nat): (fs: seq<Table>)
    requires s.Valid() && m <= |s.byRead|
    ensures |fs| == m && SameColumns(fs, SavColumns(cols))
    ensures forall j :: 0 <= j < m ==> fs[j].height == s.laneCount
  {
    if m == 0 then [] else ReadFrames(s, cols, m - 1) + [ReadFrame(s, cols, m - 1)]
  }

  lemma {:induction false} ReadFramesAt(s: RunSummary, cols: seq<(string, LaneField)>, m: nat, n: nat)
    requires s.Valid() && n < m <= |s.byRead|
    ensures ReadFrames(s, cols, m)[n] == ReadFrame(s, cols, n)
  {
    var init := ReadFrames(s, cols, m - 1);
    var fs := init + [ReadFrame(s, cols, m - 1)];
    assert ReadFrames(s, cols, m) == fs;
    if n < m - 1 {
      ReadFramesAt(s, cols, m - 1, n);
      assert fs[n] == init[n];
    }
  }

  /** The table `parse_sav_summary` returns: the per-read frames stacked, then zero-filled. */
  function SavSummary(s: RunSummary, cols: seq<(string, LaneField)>): (t: Table)
    requires s.Valid()
    ensures t.Valid()
  {
    FillNaTable(Stack(ReadFrames(s, cols, |s.byRead|), SavColumns(cols)))
  }

  /** Row `l` of read `n`'s frame holds lane `l`'s value for every label
      that no later column reuses. */
  lemma ReadFrameAt(s: RunSummary, cols: seq<(string, LaneField)>, n: nat, k: nat, l: nat)
    requires s.Valid() && n < |s.byRead| && l < s.laneCount
    requires k < |cols| && cols[k].0 != "read_number"
    requires forall j :: k < j < |cols| ==> cols[j].0 != cols[k].0
    ensures cols[k].0 in ReadFrame(s, cols, n).data
    ensures ReadFrame(s, cols, n).data[cols[k].0][l] == FormatValue(s.byRead[n].lanes[l].Get(cols[k].1))
  {
    LastFieldAt(cols, k);
  }

  /** Every row of read `n`'s frame has `read_number` n + 1. */
  lemma ReadFrameNumber(s: RunSummary, cols: seq<(string, LaneField)>, n: nat, l: nat)
    requires s.Valid() && n < |s.byRead| && l < s.laneCount
    ensures "read_number" in ReadFrame(s, cols, n).data
    ensures ReadFrame(s, cols, n).data["read_number"][l] == Real((n + 1) as real)
  {
  }

  /** The stacked table has the labels then `read_number` as columns, and
      one row per (read, lane). */
  lemma SavSummaryShape(s: RunSummary, cols: seq<(string, LaneField)>)
    requires s.Valid() && |s.byRead| > 0
    ensures SavSummary(s, cols).columns == SavColumns(cols)
    ensures SavSummary(s, cols).height == |s.byRead| * s.laneCount
  {
    TotalHeightUniform(ReadFrames(s, cols, |s.byRead|), s.laneCount);
    OffsetProduct(|s.byRead|, s.laneCount);
  }

  /** Row `n * laneCount + l` of the table is row `l` of read `n`'s frame,
      zero-filled: the reads are stacked in order, lanes in order within each. */
  lemma SavSummaryAt(s: RunSummary, cols: seq<(string, LaneField)>, c: string, n: nat, l: nat, row: nat)
    requires s.Valid() && n < |s.byRead| && l < s.laneCount && c in SavColumns(cols)
    requires row == n * s.laneCount + l
    ensures c in SavSummary(s, cols).data && c in ReadFrame(s, cols, n).data
    ensures row < SavSummary(s, cols).height
    ensures SavSummary(s, cols).data[c][row] == FillNa(ReadFrame(s, cols, n).data[c][l])
  {
    var fs := ReadFrames(s, cols, |s.byRead|);
    ReadFramesAt(s, cols, |s.byRead|, n);
    OffsetProduct(n, s.laneCount);
    FillStackUniformAt(fs, SavColumns(cols), c, n, l, s.laneCount, row);
  }

  /** The table's cell for label `cols[k]` on read `n`, lane `l`: the value
      the lane record's accessor yields, its mean for a distribution, and 0
      for a missing value. */
  lemma SavSummaryCell(s: RunSummary, cols: seq<(string, LaneField)>, k: nat, n: nat, l: nat, row: nat)
    requires s.Valid() && n < |s.byRead| && l < s.laneCount && row == n * s.laneCount + l
    requires k < |cols| && cols[k].0 != "read_number"
    requires forall j :: k < j < |cols| ==> cols[j].0 != cols[k].0
    ensures cols[k].0 in SavSummary(s, cols).data && row < SavSummary(s, cols).height
    ensures SavSummary(s, cols).data[cols[k].0][row] == FillNa(FormatValue(s.byRead[n].lanes[l].Get(cols[k].1)))
  {
    assert cols[k].0 in Keys(cols);
    ReadFrameAt(s, cols, n, k, l);
    SavSummaryAt(s, cols, cols[k].0, n, l, row);
  }

  /** The rows of read `n` carry `read_number` n + 1. */
  lemma SavSummaryReadNumber(s: RunSummary, cols: seq<(string, LaneField)>, n: nat, l: nat, row: nat)
    requires s.Valid() && n < |s.byRead| && l < s.laneCount && row == n * s.laneCount + l
    ensures "read_number" in SavSummary(s, cols).data && row < SavSummary(s, cols).height
    ensures SavSummary(s, cols).data["read_number"][row] == Real((n + 1) as real)
  {
    ReadFrameNumber(s, cols, n, l);
    SavSummaryAt(s, cols, "read_number", n, l, row);
  }

  /** One pass of the read loop extends the stack by read `n`'s frame. */
  lemma SavStep(s: RunSummary, cols: seq<(string, LaneField)>, n: nat)
    requires s.Valid() && n < |s.byRead|
    ensures Accumulate(Stack(ReadFrames(s, cols, n), SavColumns(cols)), ReadFrame(s, cols, n))
            == Stack(ReadFrames(s, cols, n + 1), SavColumns(cols))
  {
    AccumulateStack(ReadFrames(s, cols, n), ReadFrame(s, cols, n), SavColumns(cols));
  }

  method ParseSavSummary(s: RunSummary, cols: seq<(string, LaneField)>) returns (t: Table)
    requires s.Valid()
    ensures t == SavSummary(s, cols)
  {
    var acc := Empty;
    ghost var names := SavColumns(cols);
    var n := 0;
    while n < |s.byRead|
      invariant 0 <= n <= |s.byRead|
      invariant acc == Stack(ReadFrames(s, cols, n), names)
    {
      var df := BuildReadFrame(s, cols, n);
      SavStep(s, cols, n);
      acc := Accumulate(acc, df);
      n := n + 1;
    }
    t := FillNaTable(acc);
  }

  /** In the dict of a read's (label, series) pairs a label keeps the
      series of its last accessor. */
  lemma {:induction false} LaneDictLast(rows: seq<LaneSummary>, cols: seq<(string, LaneField)>, c: string)
    requires c in Keys(cols)
    ensures c in Keys(LaneDict(rows, cols))
    ensures LastSeries(LaneDict(rows, cols), c) == LaneSeries(rows, LastField(cols, c))
    decreases |cols|
  {
    var n := |cols| - 1;
    var d := LaneDict(rows, cols);
    assert Keys(cols) == Keys(cols[..n]) + [cols[n].0];
    if cols[n].0 != c {
      assert d[..n] == LaneDict(rows, cols[..n]);
      LaneDictLast(rows, cols[..n], c);
    }
  }

  /** `from_dict(dict(d))` followed by `df["read_number"] = n + 1` builds read `n`'s frame. */
  lemma FromDictReadFrame(s: RunSummary, cols: seq<(string, LaneField)>, n: nat)
    requires s.Valid() && n < |s.byRead|
    ensures SetColumn(FromDict(LaneDict(LaneRecords(s, n), cols), s.laneCount), "read_number",
                      Repeat(Real((n + 1) as real), s.laneCount)) == ReadFrame(s, cols, n)
  {
    var rows := LaneRecords(s, n);
    var df := FromDict(LaneDict(rows, cols), s.laneCount);
    var built := SetColumn(df, "read_number", Repeat(Real((n + 1) as real), s.laneCount));
    var frame := ReadFrame(s, cols, n);
    forall c | c in frame.columns ensures built.data[c] == frame.data[c] {
      if c != "read_number" {
        LaneDictLast(rows, cols, c);
      }
    }
    TableEq(built, frame);
  }

  /** The body of the read loop (lines 50-55): the list `d` of (label, series)
      pairs built column by column, the frame made from it, and `read_number`. */
  method BuildReadFrame(s: RunSummary, cols: seq<(string, LaneField)>, n: nat) returns (df: Table)
    requires s.Valid() && n < |s.byRead|
    ensures df == ReadFrame(s, cols, n)
  {
    var rows := LaneRecords(s, n);
    var d: seq<(string, seq<Cell>)> := [];
    var k := 0;
    while k < |cols|
      invariant 0 <= k <= |cols|
      invariant d == LaneDict(rows, cols[..k])
    {
      LaneDictSnoc(rows, cols, k);
      d := d + [(cols[k].0, LaneSeries(rows, cols[k].1))];
      k := k + 1;
    }
    assert cols[..k] == cols;
    df := FromDict(d, |rows|);
    df := SetColumn(df, "read_number", Repeat(Real((n + 1) as real), |rows|));
    FromDictReadFrame(s, cols, n);
  }

  // ---------------------------------------------------------------------
  // parse_summary_read_df: one row per read

  /** `[getattr(summary.at(n).read(), func)() for label, func in columns]`. */
  function ReadRow(s: RunSummary, cols: seq<(string, ReadField)>, n: nat): (row: seq<Cell>)
    requires n < |s.byRead|
    ensures |row| == |cols| && forall k :: 0 <= k < |cols| ==> row[k] == s.byRead[n].read.Get(cols[k].1)
  {
    seq(|cols|, k requires 0 <= k < |cols| => s.byRead[n].read.Get(cols[k].1))
  }

  /** The 1-based key of read `n`. */
  function ReadKey(n: nat): Cell {
    Real((n + 1) as real)
  }

  /** The dict `d` after the first `m` reads: key n + 1 maps to read n's row. */
  function ReadDict(s: RunSummary, cols: seq<(string, ReadField)>, m: nat): (d: seq<(Cell, seq<Cell>)>)
    requires m <= |s.byRead|
    ensures |d| == m && forall n :: 0 <= n < m ==> d[n] == (ReadKey(n), ReadRow(s, cols, n))
  {
    seq(m, n requires 0 <= n < m => (ReadKey(n), ReadRow(s, cols, n)))
  }

  /** The table `parse_summary_read_df` returns: one row per read keyed
      n + 1, with the labels as columns, zero-filled; when there are no
      reads, any labels make the column assignment fail. */
  function SummaryRead(s: RunSummary, cols: seq<(string, ReadField)>): (r: Result<Indexed>)
    requires Distinct(Keys(cols))
    ensures r.Ok? ==> r.value.Valid()
  {
    var m := |s.byRead|;
    var labels := Keys(cols);
    if m == 0 && cols != [] then Err(LengthMismatch)
    else
      Ok(Indexed("", seq(m, n requires 0 <= n < m => ReadKey(n)),
        Table(labels, map c | c in labels :: ReadColumn(s, cols, c), m)))
  }

  /** Column `c` of the table: each read's field of label `c`, zero-filled. */
  function ReadColumn(s: RunSummary, cols: seq<(string, ReadField)>, c: string): (r: seq<Cell>)
    requires c in Keys(cols)
    ensures |r| == |s.byRead|
    ensures forall n :: 0 <= n < |s.byRead| ==> r[n] == FillNa(s.byRead[n].read.Get(LastField(cols, c)))
  {
    seq(|s.byRead|, n requires 0 <= n < |s.byRead| => FillNa(s.byRead[n].read.Get(LastField(cols, c))))
  }

  /** Column `c` of the dict's frame, zero-filled, is the table's column:
      with distinct labels, position `IndexOf(labels, c)` is the last
      accessor of `c`. */
  lemma RowsColumn(s: RunSummary, cols: seq<(string, ReadField)>, c: string)
    requires Distinct(Keys(cols)) && c in Keys(cols) && |s.byRead| > 0
    ensures
      var rf := RowsFrame(ReadDict(s, cols, |s.byRead|), |cols|, Keys(cols));
      rf.Ok? && c in rf.value.body.data && FillNaAll(rf.value.body.data[c]) == ReadColumn(s, cols, c)
  {
    var d := ReadDict(s, cols, |s.byRead|);
    var labels := Keys(cols);
    var rf := RowsFrame(d, |cols|, labels);
    var k := IndexOf(labels, c);
    LastFieldAt(cols, k);
    assert labels[k] == c;
    forall n | 0 <= n < |s.byRead| ensures rf.value.body.data[c][n] == s.byRead[n].read.Get(LastField(cols, c)) {
      assert rf.value.body.data[labels[k]][n] == d[n].1[k];
    }
  }

  /** Updating the dict with the next read's key appends its row: the key is new. */
  lemma ReadDictStep(s: RunSummary, cols: seq<(string, ReadField)>, n: nat)
    requires n < |s.byRead|
    ensures Upsert(ReadDict(s, cols, n), ReadKey(n), ReadRow(s, cols, n)) == ReadDict(s, cols, n + 1)
  {
    var d := ReadDict(s, cols, n);
    assert ReadKey(n) !in Keys(d) by {
      forall j | 0 <= j < n ensures Keys(d)[j] != ReadKey(n) {
        assert Keys(d)[j] == Real((j + 1) as real);
      }
    }
    assert d + [(ReadKey(n), ReadRow(s, cols, n))] == ReadDict(s, cols, n + 1);
  }

  /** The frame of the full dict, with the labels as columns, zero-filled, is the table. */
  lemma SummaryReadFrame(s: RunSummary, cols: seq<(string, ReadField)>)
    requires Distinct(Keys(cols))
    ensures
      var rf := RowsFrame(ReadDict(s, cols, |s.byRead|), |cols|, Keys(cols));
      && (rf.Err? ==> SummaryRead(s, cols) == Err(rf.error))
      && (rf.Ok? ==> SummaryRead(s, cols) == Ok(FillNaIndexed(rf.value)))
  {
    var d := ReadDict(s, cols, |s.byRead|);
    var labels := Keys(cols);
    var rf := RowsFrame(d, |cols|, labels);
    if rf.Ok? {
      var t := SummaryRead(s, cols).value;
      var u := FillNaIndexed(rf.value);
      forall c | c in labels ensures u.body.data[c] == t.body.data[c] {
        RowsColumn(s, cols, c);
      }
      TableEq(u.body, t.body);
      assert u.keys == t.keys;
    }
  }

  method ParseSummaryReadDf(s: RunSummary, cols: seq<(string, ReadField)>) returns (r: Result<Indexed>)
    requires Distinct(Keys(cols))
    ensures r == SummaryRead(s, cols)
  {
    var d: seq<(Cell, seq<Cell>)> := [];
    var n := 0;
    while n < |s.byRead|
      invariant 0 <= n <= |s.byRead|
      invariant d == ReadDict(s, cols, n)
    {
      ReadDictStep(s, cols, n);
      d := Upsert(d, ReadKey(n), ReadRow(s, cols, n));
      n := n + 1;
    }
    SummaryReadFrame(s, cols);
    var ix :- RowsFrame(d, |cols|, Keys(cols));
    r := Ok(FillNaIndexed(ix));
  }

  /** The table exists exactly when there is a read or no column; it has
      one row per read, keyed n + 1, the labels as columns, and read n's
      field for each, zero-filled. */
  lemma SummaryReadRows(s: RunSummary, cols: seq<(string, ReadField)>, k: nat, n: nat)
    requires Distinct(Keys(cols))
    ensures SummaryRead(s, cols).Ok? <==> |s.byRead| > 0 || cols == []
    ensures SummaryRead(s, cols).Err? ==> SummaryRead(s, cols).error == LengthMismatch
    ensures
      var r := SummaryRead(s, cols);
      r.Ok? ==> r.value.name == "" && r.value.body.columns == Keys(cols) && r.value.body.height == |s.byRead|
    ensures
      var r := SummaryRead(s, cols);
      r.Ok? && n < |s.byRead| ==> r.value.keys[n] == Real((n + 1) as real)
    ensures
      var r := SummaryRead(s, cols);
      r.Ok? && n < |s.byRead| && k < |cols| ==>
        cols[k].0 in r.value.body.data && r.value.body.data[cols[k].0][n] == FillNa(s.byRead[n].read.Get(cols[k].1))
  {
    if k < |cols| {
      assert Keys(cols)[k] == cols[k].0;
      LastFieldAt(cols, k);
    }
  }

  /** With the fixed schema a run with reads gives exactly `is_index` and
      `number_of_cycles` per read; a run without reads fails. */
  lemma SummaryReadSchema(s: RunSummary)
    ensures Distinct(Keys(GetColumnsName().summaryRead))
    ensures
      var r := SummaryRead(s, GetColumnsName().summaryRead);
      && (r.Ok? <==> |s.byRead| > 0)
      && (r.Ok? ==> r.value.body.columns == ["is_index", "number_of_cycles"] && r.value.body.height == |s.byRead|)
      && (r.Ok? ==> forall n :: 0 <= n < |s.byRead| ==>
            && r.value.keys[n] == Real((n + 1) as real)
            && r.value.body.data["is_index"][n] == FillNa(s.byRead[n].read.isIndex)
            && r.value.body.data["number_of_cycles"][n] == FillNa(s.byRead[n].read.totalCycles))
  {
    SummaryReadLabelsDistinct();
    var cols := GetColumnsName().summaryRead;
    assert Keys(cols) == ["is_index", "number_of_cycles"];
    forall n | 0 <= n < |s.byRead|
      ensures SummaryRead(s, cols).Ok? ==>
        && SummaryRead(s, cols).value.body.data["is_index"][n] == FillNa(s.byRead[n].read.isIndex)
        && SummaryRead(s, cols).value.body.data["number_of_cycles"][n] == FillNa(s.byRead[n].read.totalCycles)
    {
      SummaryReadRows(s, cols, 0, n);
      SummaryReadRows(s, cols, 1, n);
    }
    SummaryReadRows(s, cols, 0, 0);
  }
}

/** A column-major model of the pandas frames the pipeline builds: the
    column order, one series per column, and the operations the source
    applies to them (column access and assignment, selection, dropping,
    appending, zero fill, groupby with mean or sum, and the index merge). */
module Frames {
  import opened Seqs
  import opened Cells
  import opened Results

  /** A DataFrame: its columns in order, the series of each, and the row count. */
  datatype Table = Table(columns: seq<string>, data: map<string, seq<Cell>>, height: nat) {
    predicate Valid() {
      && Distinct(columns)
      && (forall c :: c in data ==> c in columns)
      && (forall c :: c in columns ==> c in data)
      && (forall c :: c in data ==> |data[c]| == height)
    }
  }

  /** Two valid frames with the same columns, height and series are equal. */
  lemma TableEq(a: Table, b: Table)
    requires a.Valid() && b.Valid() && a.columns == b.columns && a.height == b.height
    requires forall c :: c in a.columns ==> a.data[c] == b.data[c]
    ensures a == b
  {
    assert a.data == b.data;
  }

  /** `pd.DataFrame()`: no columns and no rows. */
  const Empty: Table := Table([], map[], 0)

  /** A frame whose row labels matter: `keys[i]` labels row i and `name`
      is the name of the index ("" when it has none). */
  datatype Indexed = Indexed(name: string, keys: seq<Cell>, body: Table) {
    predicate Valid() { body.Valid() && |keys| == body.height }
  }

  /** `df[name]`. */
  function Column(t: Table, name: string): (r: Result<seq<Cell>>)
    requires t.Valid()
    ensures r.Ok? <==> name in t.columns
    ensures r.Ok? ==> r.value == t.data[name] && |r.value| == t.height
    ensures r.Err? ==> r.error == MissingColumn(name)
  {
    if name in t.data then Ok(t.data[name]) else Err(MissingColumn(name))
  }

  /** `df[name] = v` adds `name` as the last column unless it is one already. */
  function AddName(cols: seq<string>, name: string): (r: seq<string>)
    ensures Distinct(cols) ==> Distinct(r)
    ensures forall c :: c in r <==> c in cols || c == name
  {
    if name in cols then cols else cols + [name]
  }

  /** `df[name] = values`: replaces the column in place, or appends it last. */
  function SetColumn(t: Table, name: string, values: seq<Cell>): (r: Table)
    requires t.Valid() && |values| == t.height
    ensures r.Valid() && r.height == t.height
    ensures r.columns == AddName(t.columns, name)
    ensures r.data == t.data[name := values]
  {
    var cols := if name in t.columns then t.columns else t.columns + [name];
    assert forall c :: c in cols <==> c in t.columns || c == name;
    Table(cols, t.data[name := values], t.height)
  }

  /** `df[df.index.name] = df.index`: the index becomes a column. */
  function Unindex(ix: Indexed): (t: Table)
    requires ix.Valid()
    ensures t.Valid() && t.height == |ix.keys|
    ensures t.data == ix.body.data[ix.name := ix.keys]
  {
    SetColumn(ix.body, ix.name, ix.keys)
  }

  /** The series of the last pair named `c`: in `dict(d)` a later pair wins. */
  function LastSeries(d: seq<(string, seq<Cell>)>, c: string): (s: seq<Cell>)
    requires c in Keys(d)
    ensures exists k :: 0 <= k < |d| && d[k] == (c, s) && forall k' :: k < k' < |d| ==> d[k'].0 != c
  {
    var last := d[|d| - 1];
    if last.0 == c then last.1
    else
      assert Keys(d) == Keys(d[..|d| - 1]) + [last.0];
      var s := LastSeries(d[..|d| - 1], c);
      var init := d[..|d| - 1];
      ghost var k :| 0 <= k < |init| && init[k] == (c, s)
                    && forall k' :: k < k' < |init| ==> init[k'].0 != c;
      assert d[k] == (c, s);
      s
  }

  /** `pd.DataFrame.from_dict(dict(d))` for series of a common length `h`. */
  function FromDict(d: seq<(string, seq<Cell>)>, h: nat): (t: Table)
    requires forall k :: 0 <= k < |d| ==> |d[k].1| == h
    ensures t.Valid() && t.height == h && t.columns == Dedup(Keys(d))
    ensures forall c :: c in t.data ==> t.data[c] == LastSeries(d, c)
  {
    var cols := Dedup(Keys(d));
    var t := Table(cols, map c | c in cols :: LastSeries(d, c), h);
    assert forall c :: c in t.data ==> |t.data[c]| == h by {
      forall c | c in t.data ensures |t.data[c]| == h {
        var k :| 0 <= k < |d| && d[k] == (c, LastSeries(d, c));
      }
    }
    t
  }

  /** In `dict(d)` the series of a name is that of its last pair. */
  lemma FromDictAt(d: seq<(string, seq<Cell>)>, h: nat, k: nat)
    requires forall j :: 0 <= j < |d| ==> |d[j].1| == h
    requires k < |d| && forall j :: k < j < |d| ==> d[j].0 != d[k].0
    ensures d[k].0 in FromDict(d, h).data && FromDict(d, h).data[d[k].0] == d[k].1
  {
    var c := d[k].0;
    assert Keys(d)[k] == c;
    var s := LastSeries(d, c);
    var k' :| 0 <= k' < |d| && d[k'] == (c, s) && forall j :: k' < j < |d| ==> d[j].0 != c;
    assert k' == k;
  }

  function FirstAbsent(names: seq<string>, t: Table): (r: Option<string>)
    ensures r.None? <==> forall c :: c in names ==> c in t.data
    ensures r.Some? ==> r.value in names && r.value !in t.data
  {
    if names == [] then None
    else if names[0] !in t.data then Some(names[0])
    else
      assert forall c :: c in names <==> c == names[0] || c in names[1..];
      FirstAbsent(names[1..], t)
  }

  /** `df[names]`: a KeyError when a name is not a column. */
  function Select(t: Table, names: seq<string>): (r: Result<Table>)
    requires t.Valid()
    ensures r.Ok? <==> forall c :: c in names ==> c in t.columns
    ensures r.Err? ==> r.error.MissingColumn? && r.error.name in names && r.error.name !in t.columns
    ensures r.Ok? ==> r.value.Valid() && r.value.columns == Dedup(names) && r.value.height == t.height
    ensures r.Ok? ==> forall c :: c in r.value.data ==> c in t.data && r.value.data[c] == t.data[c]
  {
    match FirstAbsent(names, t)
    case Some(c) => Err(MissingColumn(c))
    case None =>
      var cols := Dedup(names);
      Ok(Table(cols, map c | c in cols :: t.data[c], t.height))
  }

  /** `df[[a, b]]` fails on the first of the two names that is not a column. */
  lemma SelectPair(t: Table, a: string, b: string)
    requires t.Valid()
    ensures a !in t.columns ==> Select(t, [a, b]) == Err(MissingColumn(a))
    ensures a in t.columns && b !in t.columns ==> Select(t, [a, b]) == Err(MissingColumn(b))
  {
    assert [a, b][1..] == [b];
  }

  function Keep(cols: seq<string>, names: seq<string>): (r: seq<string>)
    ensures forall c :: c in r <==> c in cols && c !in names
    ensures Distinct(cols) ==> Distinct(r)
    decreases names
  {
    if names == [] then cols
    else
      var r := Keep(Remove(cols, names[0]), names[1..]);
      assert forall c :: c in names <==> c == names[0] || c in names[1..];
      r
  }

  /** `df.drop(names, axis=1)`: a KeyError when a name is not a column. */
  function Drop(t: Table, names: seq<string>): (r: Result<Table>)
    requires t.Valid()
    ensures r.Ok? <==> forall c :: c in names ==> c in t.columns
    ensures r.Err? ==> r.error.MissingColumn? && r.error.name in names && r.error.name !in t.columns
    ensures r.Ok? ==> r.value.Valid() && r.value.height == t.height && r.value.columns == Keep(t.columns, names)
    ensures r.Ok? ==> forall c :: c in r.value.data ==> c !in names && c in t.data && r.value.data[c] == t.data[c]
  {
    match FirstAbsent(names, t)
    case Some(c) => Err(MissingColumn(c))
    case None =>
      var cols := Keep(t.columns, names);
      Ok(Table(cols, map c | c in cols :: t.data[c], t.height))
  }

  /** `a.append(b, ignore_index=True)` for two frames with the same columns:
      the rows of `b` follow those of `a`. */
  function Append(a: Table, b: Table): (r: Table)
    requires a.Valid() && b.Valid() && a.columns == b.columns
    ensures r.Valid() && r.columns == a.columns && r.height == a.height + b.height
    ensures forall c :: c in r.data ==> r.data[c] == a.data[c] + b.data[c]
  {
    Table(a.columns, map c | c in a.columns :: a.data[c] + b.data[c], a.height + b.height)
  }

  /** The walkers' way of growing a frame (lines 56 and 78): append the new
      frame, or take it in place of a frame with no rows. */
  function Accumulate(acc: Table, df: Table): (r: Table)
    requires acc.Valid() && df.Valid() && (acc.height > 0 ==> acc.columns == df.columns)
    ensures r.Valid() && r.columns == df.columns && r.height == acc.height + df.height
  {
    if acc.height > 0 then Append(acc, df) else df
  }

  predicate SameColumns(fs: seq<Table>, cols: seq<string>) {
    forall i :: 0 <= i < |fs| ==> fs[i].Valid() && fs[i].columns == cols
  }

  function TotalHeight(fs: seq<Table>): nat {
    if fs == [] then 0 else TotalHeight(fs[..|fs| - 1]) + fs[|fs| - 1].height
  }

  /** Column `c` of the frames `fs`, one after the other. */
  function Stacked(fs: seq<Table>, cols: seq<string>, c: string): (r: seq<Cell>)
    requires SameColumns(fs, cols) && c in cols
    ensures |r| == TotalHeight(fs)
  {
    if fs == [] then [] else Stacked(fs[..|fs| - 1], cols, c) + fs[|fs| - 1].data[c]
  }

  /** The frames `fs`, all with columns `cols`, stacked in order; no
      frames at all give the empty frame. */
  function Stack(fs: seq<Table>, cols: seq<string>): (t: Table)
    requires SameColumns(fs, cols) && Distinct(cols)
    ensures t.Valid() && t.height == TotalHeight(fs)
    ensures t.columns == if fs == [] then [] else cols
    ensures fs != [] ==> forall c :: c in t.data ==> t.data[c] == Stacked(fs, cols, c)
  {
    if fs == [] then Empty
    else Table(cols, map c | c in cols :: Stacked(fs, cols, c), TotalHeight(fs))
  }

  lemma {:induction false} StackSnoc(fs: seq<Table>, f: Table, cols: seq<string>)
    requires SameColumns(fs, cols) && f.Valid() && f.columns == cols
    ensures SameColumns(fs + [f], cols)
    ensures TotalHeight(fs + [f]) == TotalHeight(fs) + f.height
  {
    assert (fs + [f])[..|fs|] == fs;
  }

  lemma {:induction false} StackedSnoc(fs: seq<Table>, f: Table, cols: seq<string>, c: string)
    requires SameColumns(fs, cols) && f.Valid() && f.columns == cols && c in cols
    ensures SameColumns(fs + [f], cols)
    ensures Stacked(fs + [f], cols, c) == Stacked(fs, cols, c) + f.data[c]
  {
    StackSnoc(fs, f, cols);
    assert (fs + [f])[..|fs|] == fs;
  }

  lemma {:induction false} AppendStack(fs: seq<Table>, f: Table, cols: seq<string>)
    requires SameColumns(fs, cols) && f.Valid() && f.columns == cols && Distinct(cols)
    requires Stack(fs, cols).height > 0
    ensures SameColumns(fs + [f], cols)
    ensures Append(Stack(fs, cols), f) == Stack(fs + [f], cols)
  {
    StackSnoc(fs, f, cols);
    var app := Append(Stack(fs, cols), f);
    var next := Stack(fs + [f], cols);
    forall c | c in cols ensures app.data[c] == next.data[c] {
      StackedSnoc(fs, f, cols, c);
    }
    TableEq(app, next);
  }

  lemma {:induction false} FirstStack(fs: seq<Table>, f: Table, cols: seq<string>)
    requires SameColumns(fs, cols) && f.Valid() && f.columns == cols && Distinct(cols)
    requires Stack(fs, cols).height == 0
    ensures SameColumns(fs + [f], cols)
    ensures f == Stack(fs + [f], cols)
  {
    StackSnoc(fs, f, cols);
    var next := Stack(fs + [f], cols);
    forall c | c in cols ensures f.data[c] == next.data[c] {
      StackedSnoc(fs, f, cols, c);
      assert |Stacked(fs, cols, c)| == 0;
      assert Stacked(fs, cols, c) + f.data[c] == f.data[c];
    }
    TableEq(f, next);
  }

  /** Accumulating frame after frame builds their stack. */
  lemma {:induction false} AccumulateStack(fs: seq<Table>, f: Table, cols: seq<string>)
    requires SameColumns(fs, cols) && f.Valid() && f.columns == cols && Distinct(cols)
    ensures SameColumns(fs + [f], cols)
    ensures Accumulate(Stack(fs, cols), f) == Stack(fs + [f], cols)
  {
    if Stack(fs, cols).height > 0 {
      AppendStack(fs, f, cols);
    } else {
      FirstStack(fs, f, cols);
    }
  }

  /** Every frame among `rs` is valid with columns `cols`. */
  predicate UniformResults(rs: seq<Result<Table>>, cols: seq<string>) {
    forall j :: 0 <= j < |rs| && rs[j].Ok? ==> rs[j].value.Valid() && rs[j].value.columns == cols
  }

  /** The collected frames of a prefix of `rs` all have columns `cols`. */
  lemma CollectSameColumns(rs: seq<Result<Table>>, cols: seq<string>, n: nat)
    requires n <= |rs| && UniformResults(rs, cols) && Collect(rs[..n]).Ok?
    ensures SameColumns(Collect(rs[..n]).value, cols)
  {
    var fs := Collect(rs[..n]).value;
    forall i | 0 <= i < |fs| ensures fs[i].Valid() && fs[i].columns == cols {
      assert fs[i] == rs[i].value;
    }
  }

  /** The frames of `rs` stacked in order and zero-filled, or the failure
      of the first that failed. */
  function StackResults(rs: seq<Result<Table>>, cols: seq<string>): (r: Result<Table>)
    requires UniformResults(rs, cols) && Distinct(cols)
    ensures r.Ok? ==> r.value.Valid()
  {
    var fs :- Collect(rs);
    assert rs[..|rs|] == rs;
    CollectSameColumns(rs, cols, |rs|);
    Ok(FillNaTable(Stack(fs, cols)))
  }

  /** The stacked results fail exactly when collecting them does; otherwise
      they are the zero-filled stack of the collected frames. */
  lemma StackResultsCollect(rs: seq<Result<Table>>, cols: seq<string>)
    requires UniformResults(rs, cols) && Distinct(cols)
    ensures StackResults(rs, cols).Ok? <==> Collect(rs).Ok?
    ensures StackResults(rs, cols).Err? ==> StackResults(rs, cols).error == Collect(rs).error
    ensures Collect(rs).Ok? ==> SameColumns(Collect(rs).value, cols)
    ensures Collect(rs).Ok? ==> StackResults(rs, cols).value == FillNaTable(Stack(Collect(rs).value, cols))
  {
    if Collect(rs).Ok? {
      assert rs[..|rs|] == rs;
      CollectSameColumns(rs, cols, |rs|);
    }
  }

  /** After `n` passes of a loop that accumulates the frames of `rs`, `acc`
      is the stack of the first `n` of them. */
  ghost predicate StackedPrefix(rs: seq<Result<Table>>, cols: seq<string>, n: nat, acc: Table) {
    && n <= |rs| && Distinct(cols)
    && Collect(rs[..n]).Ok? && SameColumns(Collect(rs[..n]).value, cols)
    && acc == Stack(Collect(rs[..n]).value, cols)
  }

  lemma StackedPrefixStart(rs: seq<Result<Table>>, cols: seq<string>)
    requires Distinct(cols)
    ensures StackedPrefix(rs, cols, 0, Empty)
  {
    assert rs[..0] == [];
  }

  /** One pass: a failing frame is the failure of the whole, a built frame
      extends the stack. */
  lemma StackedPrefixStep(rs: seq<Result<Table>>, cols: seq<string>, n: nat, acc: Table)
    requires n < |rs| && UniformResults(rs, cols) && StackedPrefix(rs, cols, n, acc)
    ensures rs[n].Err? ==> StackResults(rs, cols) == Err(rs[n].error)
    ensures rs[n].Ok? ==> acc.Valid() && rs[n].value.Valid()
    ensures rs[n].Ok? ==> (acc.height > 0 ==> acc.columns == rs[n].value.columns)
    ensures rs[n].Ok? ==> StackedPrefix(rs, cols, n + 1, Accumulate(acc, rs[n].value))
  {
    if rs[n].Err? {
      CollectFirstErr(rs, n);
    } else {
      CollectSnoc(rs, n);
      CollectSameColumns(rs, cols, n + 1);
      AccumulateStack(Collect(rs[..n]).value, rs[n].value, cols);
    }
  }

  lemma StackedPrefixEnd(rs: seq<Result<Table>>, cols: seq<string>, acc: Table)
    requires UniformResults(rs, cols) && StackedPrefix(rs, cols, |rs|, acc)
    ensures StackResults(rs, cols) == Ok(FillNaTable(acc))
  {
    assert rs[..|rs|] == rs;
  }

  lemma {:induction false} StackedInit(fs: seq<Table>, cols: seq<string>, c: string)
    requires SameColumns(fs, cols) && c in cols && fs != []
    ensures SameColumns(fs[..|fs| - 1], cols)
    ensures TotalHeight(fs) == TotalHeight(fs[..|fs| - 1]) + fs[|fs| - 1].height
    ensures Stacked(fs, cols, c) == Stacked(fs[..|fs| - 1], cols, c) + fs[|fs| - 1].data[c]
  {
    var n := |fs| - 1;
    forall j | 0 <= j < n ensures fs[..n][j] == fs[j] { }
  }

  lemma TotalHeightPrefix(fs: seq<Table>, n: nat)
    requires n < |fs|
    ensures TotalHeight(fs[..n + 1]) == TotalHeight(fs[..n]) + fs[n].height
  {
    assert fs[..n + 1][..n] == fs[..n];
  }

  /** Row `l` of frame `i` is row `TotalHeight(fs[..i]) + l` of the stack. */
  lemma {:induction false} StackedAt(fs: seq<Table>, cols: seq<string>, c: string, i: nat, l: nat)
    requires SameColumns(fs, cols) && c in cols && i < |fs| && l < fs[i].height
    ensures TotalHeight(fs[..i]) + l < TotalHeight(fs)
    ensures Stacked(fs, cols, c)[TotalHeight(fs[..i]) + l] == fs[i].data[c][l]
    decreases |fs|
  {
    var n := |fs| - 1;
    var init := fs[..n];
    StackedInit(fs, cols, c);
    var k := TotalHeight(fs[..i]) + l;
    if i == n {
      assert fs[..i] == init;
      assert Stacked(fs, cols, c)[k] == fs[n].data[c][l];
    } else {
      assert init[..i] == fs[..i];
      assert init[i] == fs[i];
      StackedAt(init, cols, c, i, l);
      assert Stacked(fs, cols, c)[k] == Stacked(init, cols, c)[k];
    }
  }

  /** The first row of frame `n` in a stack of frames of `L` rows each,
      counted frame by frame. */
  function Offset(n: nat, L: nat): nat {
    if n == 0 then 0 else Offset(n - 1, L) + L
  }

  lemma {:induction false} OffsetProduct(n: nat, L: nat)
    ensures Offset(n, L) == n * L
  {
    if n > 0 {
      OffsetProduct(n - 1, L);
      assert n * L == (n - 1) * L + L;
    }
  }

  /** Frames of `L` rows each: frame `i` starts at row `Offset(i, L)`. */
  lemma {:induction false} TotalHeightUniform(fs: seq<Table>, L: nat)
    requires forall i :: 0 <= i < |fs| ==> fs[i].height == L
    ensures TotalHeight(fs) == Offset(|fs|, L)
    decreases |fs|
  {
    if fs != [] {
      var n := |fs| - 1;
      assert forall j :: 0 <= j < n ==> fs[..n][j] == fs[j];
      TotalHeightUniform(fs[..n], L);
    }
  }

  lemma SameColumnsPrefix(fs: seq<Table>, cols: seq<string>, n: nat)
    requires SameColumns(fs, cols) && n <= |fs|
    ensures SameColumns(fs[..n], cols)
  {
    forall i | 0 <= i < n ensures fs[..n][i] == fs[i] { }
  }

  /** `df.fillna(0)`. */
  function FillNaTable(t: Table): (r: Table)
    requires t.Valid()
    ensures r.Valid() && r.columns == t.columns && r.height == t.height
    ensures forall c :: c in r.data ==> r.data[c] == FillNaAll(t.data[c])
  {
    Table(t.columns, map c | c in t.data :: FillNaAll(t.data[c]), t.height)
  }

  /** Row `l` of frame `i`, zero-filled, is row `TotalHeight(fs[..i]) + l`
      of the zero-filled stack. */
  lemma FillStackAt(fs: seq<Table>, cols: seq<string>, c: string, i: nat, l: nat, row: nat)
    requires SameColumns(fs, cols) && Distinct(cols) && c in cols && i < |fs| && l < fs[i].height
    requires row == TotalHeight(fs[..i]) + l
    ensures c in FillNaTable(Stack(fs, cols)).data && c in fs[i].data
    ensures row < FillNaTable(Stack(fs, cols)).height
    ensures FillNaTable(Stack(fs, cols)).data[c][row] == FillNa(fs[i].data[c][l])
  {
    StackedAt(fs, cols, c, i, l);
    var t := Stack(fs, cols);
    assert c in t.data && t.data[c] == Stacked(fs, cols, c);
    var r := FillNaTable(t);
    assert r.data[c] == FillNaAll(t.data[c]);
  }

  /** For frames of `L` rows each, row `l` of frame `i`, zero-filled, is
      row `Offset(i, L) + l` of the zero-filled stack. */
  lemma FillStackUniformAt(fs: seq<Table>, cols: seq<string>, c: string, i: nat, l: nat, L: nat, row: nat)
    requires SameColumns(fs, cols) && Distinct(cols) && c in cols && i < |fs| && l < L && row == Offset(i, L) + l
    requires forall j :: 0 <= j < |fs| ==> fs[j].height == L
    ensures c in FillNaTable(Stack(fs, cols)).data && c in fs[i].data
    ensures row < FillNaTable(Stack(fs, cols)).height
    ensures FillNaTable(Stack(fs, cols)).data[c][row] == FillNa(fs[i].data[c][l])
  {
    PrefixUniform(fs, i, L);
    FillStackAt(fs, cols, c, i, l, row);
  }

  lemma PrefixUniform(fs: seq<Table>, i: nat, L: nat)
    requires i <= |fs| && forall j :: 0 <= j < |fs| ==> fs[j].height == L
    ensures TotalHeight(fs[..i]) == Offset(i, L)
  {
    assert forall j :: 0 <= j < i ==> fs[..i][j] == fs[j];
    TotalHeightUniform(fs[..i], L);
  }

  /** The aggregations the source applies after a groupby. */
  datatype Agg = Mean | Sum

  /** The cells of `values` on the rows whose key is `k`, in row order. */
  function Pick(values: seq<Cell>, keys: seq<Cell>, k: Cell): (r: seq<Cell>)
    requires |values| == |keys|
    ensures |r| <= |values|
  {
    if keys == [] then []
    else
      var n := |keys| - 1;
      Pick(values[..n], keys[..n], k) + (if keys[n] == k then [values[n]] else [])
  }

  /** A key that occurs picks at least one cell. */
  lemma {:induction false} PickNonEmpty(values: seq<Cell>, keys: seq<Cell>, k: Cell)
    requires |values| == |keys| && k in keys
    ensures |Pick(values, keys, k)| > 0
    decreases |keys|
  {
    var n := |keys| - 1;
    if keys[n] != k {
      assert k in keys[..n] by {
        var j :| 0 <= j < |keys| && keys[j] == k;
        assert keys[..n][j] == k;
      }
      PickNonEmpty(values[..n], keys[..n], k);
    }
  }

  function Reals(cs: seq<Cell>): (r: seq<real>)
    ensures |r| == |cs| && forall i :: 0 <= i < |cs| ==> r[i] == RealOf(cs[i])
  {
    seq(|cs|, i requires 0 <= i < |cs| => RealOf(cs[i]))
  }

  /** The mean or the sum of one group; the mean of no cells is NaN. */
  function Aggregate(agg: Agg, cs: seq<Cell>): (c: Cell)
    ensures c.Num?
    ensures agg == Sum ==> c == Real(SumReals(Reals(cs)))
    ensures agg == Mean && |cs| > 0 ==> c == Real(SumReals(Reals(cs)) / |cs| as real)
  {
    match agg
    case Sum => Real(SumReals(Reals(cs)))
    case Mean => if |cs| == 0 then Missing else Real(SumReals(Reals(cs)) / |cs| as real)
  }

  /** `t.groupby([key]).mean()` or `.sum()`: one row per distinct key, in
      order of first appearance, labelled by that key; every other column
      holds the aggregate of its cells on that key's rows. */
  function GroupBy(t: Table, key: string, agg: Agg): (r: Result<Indexed>)
    requires t.Valid()
    ensures r.Ok? <==> key in t.columns
    ensures r.Err? ==> r.error == MissingColumn(key)
    ensures r.Ok? ==> r.value.Valid() && r.value.name == key
    ensures r.Ok? ==> r.value.keys == Dedup(t.data[key]) && r.value.body.columns == Remove(t.columns, key)
    ensures r.Ok? ==> forall c :: c in r.value.body.data ==> c in t.data && c != key
    ensures r.Ok? ==> forall c, i :: c in r.value.body.data && 0 <= i < |r.value.keys| ==>
              r.value.body.data[c][i] == Aggregate(agg, Pick(t.data[c], t.data[key], r.value.keys[i]))
  {
    if key !in t.data then Err(MissingColumn(key))
    else
      var keys := Dedup(t.data[key]);
      var cols := Remove(t.columns, key);
      Ok(Indexed(key, keys, Table(cols, AggColumns(t, key, agg, keys, cols), |keys|)))
  }

  /** `t[names].groupby([key]).agg()`: the selection fails on its first
      missing column, the grouping on a key outside the selection; the
      groups are those of `t` on `key`, the columns the selected ones but
      the key. */
  function SelectGroupBy(t: Table, names: seq<string>, key: string, agg: Agg): (r: Result<Indexed>)
    requires t.Valid()
    ensures r.Ok? <==> key in names && forall c :: c in names ==> c in t.columns
    ensures r.Err? ==> r.error.MissingColumn? && (r.error.name in names || r.error.name == key)
    ensures r.Ok? ==> r.value.Valid() && r.value.name == key && key in t.columns
    ensures r.Ok? ==> r.value.keys == Dedup(t.data[key]) && r.value.body.columns == Remove(Dedup(names), key)
    ensures r.Ok? ==> forall c, i :: c in r.value.body.data && 0 <= i < |r.value.keys| ==>
              c in t.columns && r.value.body.data[c][i] == Aggregate(agg, Pick(t.data[c], t.data[key], r.value.keys[i]))
  {
    var s :- Select(t, names);
    GroupBy(s, key, agg)
  }

  /** The aggregated series of the columns `cols`, one cell per group key. */
  function AggColumns(t: Table, key: string, agg: Agg, keys: seq<Cell>, cols: seq<string>): (m: map<string, seq<Cell>>)
    requires t.Valid() && key in t.columns && forall c :: c in cols ==> c in t.columns
    ensures forall c :: c in m <==> c in cols
    ensures forall c :: c in m ==> |m[c]| == |keys|
    ensures forall c, i :: c in m && 0 <= i < |keys| ==> m[c][i] == Aggregate(agg, Pick(t.data[c], t.data[key], keys[i]))
    decreases |cols|
  {
    if cols == [] then map[]
    else
      var n := |cols| - 1;
      AggColumns(t, key, agg, keys, cols[..n])[cols[n] :=
        seq(|keys|, i requires 0 <= i < |keys| => Aggregate(agg, Pick(t.data[cols[n]], t.data[key], keys[i])))]
  }

  /** The positions of `k` in `ks`, increasing. */
  function Matches(ks: seq<Cell>, k: Cell): (r: seq<nat>)
    ensures forall j :: 0 <= j < |r| ==> r[j] < |ks| && ks[r[j]] == k
    ensures forall j :: 0 <= j < |ks| && ks[j] == k ==> j in r
  {
    if ks == [] then []
    else
      var n := |ks| - 1;
      Matches(ks[..n], k) + (if ks[n] == k then [n] else [])
  }

  /** The row pairs of an inner join on equal keys, by left row and then by right row. */
  function JoinPairs(lk: seq<Cell>, rk: seq<Cell>): (r: seq<(nat, nat)>)
    ensures forall p :: p in r ==> p.0 < |lk| && p.1 < |rk| && lk[p.0] == rk[p.1]
  {
    if lk == [] then []
    else
      var n := |lk| - 1;
      var ms := Matches(rk, lk[n]);
      JoinPairs(lk[..n], rk) + seq(|ms|, j requires 0 <= j < |ms| => (n, ms[j]))
  }

  /** Every pair of rows with equal keys is joined. */
  lemma {:induction false} JoinPairsComplete(lk: seq<Cell>, rk: seq<Cell>, a: nat, b: nat)
    requires a < |lk| && b < |rk| && lk[a] == rk[b]
    ensures (a, b) in JoinPairs(lk, rk)
    decreases |lk|
  {
    var n := |lk| - 1;
    var ms := Matches(rk, lk[n]);
    var last := seq(|ms|, j requires 0 <= j < |ms| => (n, ms[j]));
    assert JoinPairs(lk, rk) == JoinPairs(lk[..n], rk) + last;
    if a < n {
      assert lk[..n][a] == lk[a];
      JoinPairsComplete(lk[..n], rk, a, b);
    } else {
      var j :| 0 <= j < |ms| && ms[j] == b;
      assert last[j] == (n, b);
    }
  }

  /** `l.merge(r, left_index=True, right_index=True)`: an inner join on the
      row labels; the left frame's columns come first. */
  function Merge(l: Indexed, r: Indexed): (m: Indexed)
    requires l.Valid() && r.Valid()
    ensures m.Valid() && m.name == l.name
    ensures m.body.columns == Dedup(l.body.columns + r.body.columns)
    ensures |m.keys| == |JoinPairs(l.keys, r.keys)|
    ensures var ps := JoinPairs(l.keys, r.keys);
      forall i :: 0 <= i < |ps| ==>
        && m.keys[i] == l.keys[ps[i].0] == r.keys[ps[i].1]
        && forall c :: c in m.body.data ==>
             m.body.data[c][i] == if c in l.body.data then l.body.data[c][ps[i].0] else r.body.data[c][ps[i].1]
  {
    var ps := JoinPairs(l.keys, r.keys);
    var cols := Dedup(l.body.columns + r.body.columns);
    var body := Table(cols, map c | c in cols :: JoinColumn(l, r, ps, c), |ps|);
    Indexed(l.name, seq(|ps|, i requires 0 <= i < |ps| => l.keys[ps[i].0]), body)
  }

  /** The merged series of column `c`: the left frame's when it has `c`. */
  function JoinColumn(l: Indexed, r: Indexed, ps: seq<(nat, nat)>, c: string): (s: seq<Cell>)
    requires l.Valid() && r.Valid() && (c in l.body.data || c in r.body.data)
    requires forall p :: p in ps ==> p.0 < |l.keys| && p.1 < |r.keys|
    ensures |s| == |ps|
    ensures forall i :: 0 <= i < |ps| ==>
      s[i] == if c in l.body.data then l.body.data[c][ps[i].0] else r.body.data[c][ps[i].1]
  {
    if c in l.body.data then seq(|ps|, i requires 0 <= i < |ps| => l.body.data[c][ps[i].0])
    else seq(|ps|, i requires 0 <= i < |ps| => r.body.data[c][ps[i].1])
  }

  /** `pd.DataFrame.from_dict(d, orient='index')` for rows of a common
      width `w`, then `.columns = labels`: one row per key in order, labelled
      by it, with no index name. No rows at all give no columns, so any
      labels but none are a length mismatch. */
  function RowsFrame(d: seq<(Cell, seq<Cell>)>, w: nat, labels: seq<string>): (r: Result<Indexed>)
    requires Distinct(labels) && forall i :: 0 <= i < |d| ==> |d[i].1| == w
    ensures r.Ok? <==> |labels| == if d == [] then 0 else w
    ensures r.Err? ==> r.error == LengthMismatch
    ensures r.Ok? ==> r.value.Valid() && r.value.name == "" && r.value.keys == Keys(d)
    ensures r.Ok? ==> r.value.body.columns == labels && r.value.body.height == |d|
    ensures r.Ok? ==> forall j, i :: 0 <= j < |labels| && 0 <= i < |d| ==> r.value.body.data[labels[j]][i] == d[i].1[j]
  {
    var width := if d == [] then 0 else w;
    if |labels| != width then Err(LengthMismatch)
    else
      var body := Table(labels, map c | c in labels ::
        seq(|d|, i requires 0 <= i < |d| => d[i].1[IndexOf(labels, c)]), |d|);
      Ok(Indexed("", Keys(d), body))
  }

  /** `fillna(0)` on a frame with a row index: the index is untouched. */
  function FillNaIndexed(ix: Indexed): (r: Indexed)
    requires ix.Valid()
    ensures r.Valid() && r.name == ix.name && r.keys == ix.keys
    ensures r.body == FillNaTable(ix.body)
  {
    Indexed(ix.name, ix.keys, FillNaTable(ix.body))
  }

  /** The values of a series with index `from`, realigned on the index
      `to` as `df[name] = series` does: a label the series lacks gets NaN. */
  function Align(to: seq<Cell>, from: seq<Cell>, values: seq<Cell>): (r: seq<Cell>)
    requires |values| == |from|
    ensures |r| == |to|
    ensures forall i :: 0 <= i < |to| ==> r[i] == if to[i] in from then values[IndexOf(from, to[i])] else Missing
  {
    seq(|to|, i requires 0 <= i < |to| => if to[i] in from then values[IndexOf(from, to[i])] else Missing)
  }

  /** `df[df.index.name] = df.index`, keeping the index. */
  function IndexToColumn(ix: Indexed): (r: Indexed)
    requires ix.Valid()
    ensures r.Valid() && r.name == ix.name && r.keys == ix.keys
    ensures r.body.columns == AddName(ix.body.columns, ix.name)
    ensures r.body.data == ix.body.data[ix.name := ix.keys]
  {
    Indexed(ix.name, ix.keys, Unindex(ix))
  }
}

/** The unit layer: the fixed unit and conversion tables (`get_metrics`),
    the four-operator arithmetic dispatch (`calc`), the per-column
    conversion (`convert_unit_value`) and the `{value, units}` wrapping
    (`add_unit`), lifted to whole frames as `DataFrame.apply` does. Python's
    `str` of a float is the parameter `show`. */
module Units {
  import opened Seqs
  import opened Cells
  import opened Results
  import opened Frames

  /** `str(x)` of a Python float, given the text `show` of a finite one. */
  function ShowFloat(show: real -> string, f: Float): (r: string)
    ensures f.Finite? ==> r == show(f.r)
    ensures f.NaN? ==> r == "nan"
    ensures f.Inf? ==> r == if f.negative then "-inf" else "inf"
  {
    match f
    case Finite(r) => show(r)
    case NaN => "nan"
    case Inf(neg) => if neg then "-inf" else "inf"
  }

  /** `str(x)` of a cell. A unit record prints as a Python dict (quotes
      inside its strings are not escaped here). */
  function Str(show: real -> string, c: Cell): (r: string)
    ensures c.Num? ==> r == ShowFloat(show, c.x)
    ensures c.Text? ==> r == c.s
    ensures c.Flag? ==> r == if c.b then "True" else "False"
    ensures c.Tagged? ==> r == "{'value': '" + c.value + "', 'units': '" + c.units + "'}"
  {
    match c
    case Num(f) => ShowFloat(show, f)
    case Text(s) => s
    case Flag(b) => if b then "True" else "False"
    case Tagged(v, u) => "{'value': '" + v + "', 'units': '" + u + "'}"
  }

  /** The operator tags `calc` accepts. */
  predicate IsOperator(m: string) {
    m == "+" || m == "-" || m == "*" || m == "/"
  }

  /** The exact value of `a op v` (no rounding). */
  function Exact(a: real, v: int, m: string): real
    requires IsOperator(m) && !(m == "/" && v == 0)
  {
    var y := v as real;
    if m == "+" then a + y else if m == "-" then a - y else if m == "*" then a * y else a / y
  }

  /** `x op v` on a Python float and an int: IEEE rules for NaN and the
      infinities, and ZeroDivisionError for any division by 0. */
  function Arith(f: Float, v: int, m: string): (r: Result<Float>)
    requires IsOperator(m)
    ensures r.Err? <==> m == "/" && v == 0
    ensures r.Err? ==> r.error == ZeroDivision
    ensures f.Finite? && r.Ok? ==> r.value == Finite(Exact(f.r, v, m))
  {
    if m == "/" && v == 0 then Err(ZeroDivision)
    else match f
      case Finite(x) =>
        Ok(Finite(Exact(x, v, m)))
      case NaN => Ok(NaN)
      case Inf(neg) =>
        if m == "+" || m == "-" then Ok(f)
        else if m == "*" && v == 0 then Ok(NaN)
        else Ok(Inf(neg != (v < 0)))
  }

  /** `s * v` on a Python string: `v` copies, none when `v` is not
      positive; the text starts with `s` and repeats it with period `|s|`. */
  function RepeatStr(s: string, v: int): (r: string)
    ensures v <= 0 ==> r == []
    ensures v > 0 ==> |r| == v * |s| && r[..|s|] == s
    ensures forall i :: 0 <= i < |r| - |s| ==> r[i + |s|] == r[i]
    decreases if v <= 0 then 0 else v
  {
    if v <= 0 then [] else s + RepeatStr(s, v - 1)
  }

  /** The decimal digit `d`. */
  function DigitChar(d: nat): (c: char)
    requires d < 10
    ensures '0' <= c <= '9' && c as int - '0' as int == d
  {
    (d + '0' as int) as char
  }

  /** The decimal digits of `n`, most significant first, without leading
      zeros. */
  function Digits(n: nat): (r: string)
    ensures |r| > 0 && forall i :: 0 <= i < |r| ==> '0' <= r[i] <= '9'
    ensures n > 0 ==> r[0] != '0'
    decreases n
  {
    if n < 10 then [DigitChar(n)] else Digits(n / 10) + [DigitChar(n % 10)]
  }

  /** The number a string of decimal digits denotes. */
  function DigitsValue(s: string): int
    decreases |s|
  {
    if s == [] then 0 else DigitsValue(s[..|s| - 1]) * 10 + (s[|s| - 1] as int - '0' as int)
  }

  /** The number a Python int's text denotes: an optional `-`, then digits. */
  function IntValue(s: string): int {
    if |s| > 0 && s[0] == '-' then -DigitsValue(s[1..]) else DigitsValue(s)
  }

  /** `str(n)` of a Python int. */
  function IntStr(n: int): (r: string)
    ensures |r| > 0 && (r[0] == '-' <==> n < 0)
    ensures forall i :: 0 < i < |r| ==> '0' <= r[i] <= '9'
    ensures |r| > 1 ==> r[if n < 0 then 1 else 0] != '0'
  {
    if n < 0 then "-" + Digits(-n) else Digits(n)
  }

  /** Reading the digits back gives the number. */
  lemma {:induction false} DigitsRoundTrip(n: nat)
    ensures DigitsValue(Digits(n)) == n
    decreases n
  {
    if n >= 10 {
      var d := Digits(n);
      assert d[..|d| - 1] == Digits(n / 10);
      DigitsRoundTrip(n / 10);
    }
  }

  /** Reading `str(n)` back gives `n`. */
  lemma IntStrRoundTrip(n: int)
    ensures IntValue(IntStr(n)) == n
  {
    if n < 0 {
      assert IntStr(n)[1..] == Digits(-n);
      DigitsRoundTrip(-n);
    } else {
      DigitsRoundTrip(n);
    }
  }

  /** `a op v` on two Python ints, for the operators that keep ints. */
  function IntOp(a: int, v: int, m: string): int
    requires m == "+" || m == "-" || m == "*"
  {
    if m == "+" then a + v else if m == "-" then a - v else a * v
  }

  /** `calc(v1, v2, method)`: the text of `x op v`. The operator tag is
      looked up first, so an unknown tag fails whatever the operands; a
      string only supports `*` (repetition); a unit record supports nothing;
      a boolean is the int 0 or 1, so `+`, `-` and `*` give an int and `/`
      a float. */
  function Calc(show: real -> string, x: Cell, v: int, m: string): (r: Result<string>)
    ensures r.Ok? ==> IsOperator(m) && !x.Tagged? && (x.Text? ==> m == "*")
    ensures r.Ok? && x.Text? ==> r.value == RepeatStr(x.s, v)
    ensures r.Ok? && x.Flag? && m != "/" ==> IntValue(r.value) == IntOp(if x.b then 1 else 0, v, m)
  {
    if !IsOperator(m) then Err(UnsupportedOperator(m))
    else match x
      case Text(s) => if m == "*" then Ok(RepeatStr(s, v)) else Err(TypeMismatch)
      case Tagged(_, _) => Err(TypeMismatch)
      case Flag(b) =>
        var a := if b then 1 else 0;
        if m != "/" then
          IntStrRoundTrip(IntOp(a, v, m));
          Ok(IntStr(IntOp(a, v, m)))
        else if v == 0 then Err(ZeroDivision)
        else Ok(show(a as real / v as real))
      case Num(f) =>
        var q :- Arith(f, v, m);
        Ok(ShowFloat(show, q))
  }

  /** `calc` fails exactly when the tag is unknown, the operand is not a
      number (a string being fine under `*`), or a number is divided by 0;
      when several apply, the unknown tag wins, then the operand type. */
  lemma CalcFails(show: real -> string, x: Cell, v: int, m: string)
    ensures Calc(show, x, v, m).Err? <==>
      || !IsOperator(m)
      || (Numeric(x).None? && !(x.Text? && m == "*"))
      || (Numeric(x).Some? && m == "/" && v == 0)
    ensures !IsOperator(m) ==> Calc(show, x, v, m) == Err(UnsupportedOperator(m))
    ensures IsOperator(m) && Numeric(x).None? && !(x.Text? && m == "*") ==> Calc(show, x, v, m) == Err(TypeMismatch)
    ensures IsOperator(m) && Numeric(x).Some? && m == "/" && v == 0 ==> Calc(show, x, v, m) == Err(ZeroDivision)
  {
    if IsOperator(m) && !x.Text? && !x.Tagged? {
      assert Numeric(x).Some?;
    }
  }

  /** On a finite number `calc` is the text of the exact arithmetic result. */
  lemma CalcFinite(show: real -> string, a: real, v: int, m: string)
    requires IsOperator(m) && !(m == "/" && v == 0)
    ensures Calc(show, Real(a), v, m) == Ok(show(Exact(a, v, m)))
  {
  }

  /** On any cell holding a finite float likewise. */
  lemma CalcFiniteCell(show: real -> string, x: Cell, v: int, m: string)
    requires IsOperator(m) && !(m == "/" && v == 0) && x.Num? && IsFinite(x)
    ensures Calc(show, x, v, m) == Ok(show(Exact(RealOf(x), v, m)))
  {
  }

  /** On a boolean `+`, `-` and `*` give the text of an int, `/` the text of
      a float. */
  lemma CalcFlag(show: real -> string, b: bool, v: int, m: string)
    requires IsOperator(m) && !(m == "/" && v == 0)
    ensures m != "/" ==> Calc(show, Flag(b), v, m) == Ok(IntStr(IntOp(if b then 1 else 0, v, m)))
    ensures m == "/" ==> Calc(show, Flag(b), v, m) == Ok(show(Exact(if b then 1.0 else 0.0, v, m)))
  {
  }

  /** One entry of `metrics_convert`: the operator tag and the constant. */
  datatype Conversion = Conversion(op: string, value: int)

  /** The two tables `get_metrics` returns. */
  datatype Metrics = Metrics(units: map<string, string>, convert: map<string, Conversion>)

  const MetricsUnit: map<string, string> := map[
    "index_reads_passing_filter" := "%", "reads_aligned" := "%", "quality" := "%", "error" := "%",
    "reads" := "Mbp", "reads_passing_filter" := "Mbp", "cluster_density" := "Kbp/mm^2",
    "undetermined_indices" := "%", "cluster_density_passing_filter" := "%", "yield" := "Gbp"]

  const MetricsConvert: map<string, Conversion> := map[
    "reads_aligned" := Conversion("*", 100),
    "cluster_density" := Conversion("/", 1000),
    "cluster_density_passing_filter" := Conversion("*", 100),
    "reads" := Conversion("/", 1000000),
    "reads_passing_filter" := Conversion("/", 1000000)]

  /** The fixed tables. Every conversion uses a supported operator, no
      divisor is 0, and every converted column also has a unit. */
  function GetMetrics(): (d: Metrics)
    ensures forall c :: c in d.convert ==> IsOperator(d.convert[c].op)
    ensures forall c :: c in d.convert && d.convert[c].op == "/" ==> d.convert[c].value != 0
    ensures forall c :: c in d.convert ==> c in d.units
  {
    Metrics(MetricsUnit, MetricsConvert)
  }

  /** The bookkeeping columns of the tables have neither unit nor
      conversion. */
  lemma UnitlessColumns()
    ensures var m := GetMetrics();
      && "lane" !in m.units && "read_number" !in m.units && "sample_name" !in m.units && "index" !in m.units
      && "lane" !in m.convert && "read_number" !in m.convert && "sample_name" !in m.convert && "index" !in m.convert
  {
  }

  /** Percentages that are written as they are. */
  lemma PercentColumns()
    ensures var m := GetMetrics();
      && m.units["undetermined_indices"] == "%" && "undetermined_indices" !in m.convert
      && m.units["index_reads_passing_filter"] == "%" && "index_reads_passing_filter" !in m.convert
      && m.units["quality"] == "%" && "quality" !in m.convert
      && m.units["error"] == "%" && "error" !in m.convert
  {
  }

  /** The converted columns of the lane and read tables, with their units. */
  lemma ConvertedColumns()
    ensures var m := GetMetrics();
      && m.convert["cluster_density"] == Conversion("/", 1000) && m.units["cluster_density"] == "Kbp/mm^2"
      && m.convert["cluster_density_passing_filter"] == Conversion("*", 100) && m.units["cluster_density_passing_filter"] == "%"
      && m.convert["reads"] == Conversion("/", 1000000) && m.units["reads"] == "Mbp"
      && m.convert["reads_passing_filter"] == Conversion("/", 1000000) && m.units["reads_passing_filter"] == "Mbp"
      && m.convert["reads_aligned"] == Conversion("*", 100) && m.units["reads_aligned"] == "%"
      && "yield" !in m.convert && m.units["yield"] == "Gbp"
  {
  }

  /** `calc` on every cell of a column, in order. */
  function CellResults(show: real -> string, col: seq<Cell>, c: Conversion): (rs: seq<Result<string>>)
    ensures |rs| == |col| && forall i :: 0 <= i < |col| ==> rs[i] == Calc(show, col[i], c.value, c.op)
  {
    seq(|col|, i requires 0 <= i < |col| => Calc(show, col[i], c.value, c.op))
  }

  /** `convert_unit_value(df_col, metrics_convert)`: a registered column
      has every cell replaced by the text `calc` gives for it, the first
      failing cell raising; any other column is returned as it is. */
  function ConvertColumn(show: real -> string, name: string, col: seq<Cell>, conv: map<string, Conversion>): (r: Result<seq<Cell>>)
    ensures name !in conv ==> r == Ok(col)
    ensures r.Ok? ==> |r.value| == |col|
    ensures name in conv ==>
      (r.Ok? <==> forall i :: 0 <= i < |col| ==> Calc(show, col[i], conv[name].value, conv[name].op).Ok?)
    ensures name in conv && r.Ok? ==>
      forall i :: 0 <= i < |col| ==> r.value[i] == Text(Calc(show, col[i], conv[name].value, conv[name].op).value)
  {
    if name !in conv then Ok(col)
    else
      var rs := CellResults(show, col, conv[name]);
      var texts :- Collect(rs);
      Ok(seq(|texts|, i requires 0 <= i < |texts| => Text(texts[i])))
  }

  /** A registered column fails with the failure of its first failing cell. */
  lemma ConvertColumnFirstErr(show: real -> string, name: string, col: seq<Cell>, conv: map<string, Conversion>, i: nat)
    requires name in conv && i < |col|
    requires forall j :: 0 <= j < i ==> Calc(show, col[j], conv[name].value, conv[name].op).Ok?
    requires Calc(show, col[i], conv[name].value, conv[name].op).Err?
    ensures ConvertColumn(show, name, col, conv) == Err(Calc(show, col[i], conv[name].value, conv[name].op).error)
  {
    var rs := CellResults(show, col, conv[name]);
    assert forall j :: 0 <= j < i ==> rs[..i][j].Ok?;
    CollectFirstErr(rs, i);
  }

  /** `add_unit(df_col, metrics_unit)`: a registered column has every cell
      replaced by `{value: str(x), units: unit}`; any other column is
      returned as it is. */
  function AddUnit(show: real -> string, name: string, col: seq<Cell>, units: map<string, string>): (r: seq<Cell>)
    ensures |r| == |col|
    ensures name !in units ==> r == col
    ensures name in units ==> forall i :: 0 <= i < |col| ==> r[i] == Tagged(Str(show, col[i]), units[name])
  {
    if name in units then seq(|col|, i requires 0 <= i < |col| => Tagged(Str(show, col[i]), units[name]))
    else col
  }

  /** `convert_unit_value` on every column, in column order. */
  function ColumnResults(show: real -> string, t: Table, conv: map<string, Conversion>): (rs: seq<Result<seq<Cell>>>)
    requires t.Valid()
    ensures |rs| == |t.columns|
    ensures forall j :: 0 <= j < |t.columns| ==> rs[j] == ConvertColumn(show, t.columns[j], t.data[t.columns[j]], conv)
  {
    seq(|t.columns|, j requires 0 <= j < |t.columns| => ConvertColumn(show, t.columns[j], t.data[t.columns[j]], conv))
  }

  /** `df.apply(convert_unit_value, metrics_convert=...)`: every column
      converted in column order; the first failing column raises. */
  function ConvertTable(show: real -> string, t: Table, conv: map<string, Conversion>): (r: Result<Table>)
    requires t.Valid()
    ensures r.Ok? <==> Collect(ColumnResults(show, t, conv)).Ok?
    ensures r.Err? ==> r.error == Collect(ColumnResults(show, t, conv)).error
    ensures r.Ok? ==> r.value.Valid() && r.value.columns == t.columns && r.value.height == t.height
    ensures r.Ok? ==> forall c :: c in t.columns ==> r.value.data[c] == ConvertColumn(show, c, t.data[c], conv).value
  {
    var rs := ColumnResults(show, t, conv);
    var cs :- Collect(rs);
    var body := map c | c in t.columns :: cs[IndexOf(t.columns, c)];
    assert forall c :: c in t.columns ==> body[c] == ConvertColumn(show, c, t.data[c], conv).value by {
      forall c | c in t.columns ensures body[c] == ConvertColumn(show, c, t.data[c], conv).value {
        assert rs[IndexOf(t.columns, c)] == ConvertColumn(show, c, t.data[c], conv);
      }
    }
    Ok(Table(t.columns, body, t.height))
  }

  /** The frame converts exactly when every column does. */
  lemma ConvertTableOk(show: real -> string, t: Table, conv: map<string, Conversion>)
    requires t.Valid()
    ensures ConvertTable(show, t, conv).Ok? <==> forall c :: c in t.columns ==> ConvertColumn(show, c, t.data[c], conv).Ok?
  {
    var rs := ColumnResults(show, t, conv);
    forall c | c in t.columns ensures rs[IndexOf(t.columns, c)] == ConvertColumn(show, c, t.data[c], conv) {
    }
  }

  /** A frame that does not convert fails with the failure of its first
      failing column. */
  lemma ConvertTableFirstErr(show: real -> string, t: Table, conv: map<string, Conversion>)
    requires t.Valid() && ConvertTable(show, t, conv).Err?
    ensures exists j ::
      && 0 <= j < |t.columns|
      && (forall k :: 0 <= k < j ==> ConvertColumn(show, t.columns[k], t.data[t.columns[k]], conv).Ok?)
      && ConvertColumn(show, t.columns[j], t.data[t.columns[j]], conv).Err?
      && ConvertTable(show, t, conv).error == ConvertColumn(show, t.columns[j], t.data[t.columns[j]], conv).error
  {
    var rs := ColumnResults(show, t, conv);
    CollectErr(rs);
  }

  /** `df.apply(add_unit, metrics_unit=...)`: every column annotated. */
  function AnnotateTable(show: real -> string, t: Table, units: map<string, string>): (r: Table)
    requires t.Valid()
    ensures r.Valid() && r.columns == t.columns && r.height == t.height
    ensures forall c :: c in t.columns ==> r.data[c] == AddUnit(show, c, t.data[c], units)
  {
    Table(t.columns, map c | c in t.columns :: AddUnit(show, c, t.data[c], units), t.height)
  }

  /** The convert-then-annotate chain every unit-bearing table goes
      through. */
  function WithUnits(show: real -> string, t: Table, m: Metrics): (r: Result<Table>)
    requires t.Valid()
    ensures r.Ok? <==> ConvertTable(show, t, m.convert).Ok?
    ensures r.Ok? ==> r.value.Valid() && r.value.columns == t.columns && r.value.height == t.height
  {
    var converted :- ConvertTable(show, t, m.convert);
    Ok(AnnotateTable(show, converted, m.units))
  }

  /** With the fixed tables, a column converts when it is unregistered or
      holds numbers: every
      registered operator is supported and no divisor is 0. */
  lemma NumbersConvert(show: real -> string, name: string, col: seq<Cell>)
    requires name in GetMetrics().convert ==> forall i :: 0 <= i < |col| ==> Numeric(col[i]).Some?
    ensures ConvertColumn(show, name, col, GetMetrics().convert).Ok?
  {
    var conv := GetMetrics().convert;
    if name in conv {
      forall i | 0 <= i < |col| ensures Calc(show, col[i], conv[name].value, conv[name].op).Ok? {
        CalcFails(show, col[i], conv[name].value, conv[name].op);
      }
    }
  }

  /** With the fixed tables, a frame whose registered columns hold numbers
      gets its units. */
  lemma NumbersGetUnits(show: real -> string, t: Table)
    requires t.Valid()
    requires forall c, i :: c in t.columns && c in GetMetrics().convert && 0 <= i < t.height ==> Numeric(t.data[c][i]).Some?
    ensures WithUnits(show, t, GetMetrics()).Ok?
  {
    forall c | c in t.columns ensures ConvertColumn(show, c, t.data[c], GetMetrics().convert).Ok? {
      NumbersConvert(show, c, t.data[c]);
    }
    ConvertTableOk(show, t, GetMetrics().convert);
  }

  /** A cell after the unit layer: unregistered columns pass through
      unchanged; a column with a unit but no conversion is wrapped as
      `{value: str(x), units}`; a converted column is converted first and
      then wrapped, once each. */
  lemma WithUnitsCell(show: real -> string, t: Table, c: string, i: nat)
    requires t.Valid() && c in t.columns && i < t.height && WithUnits(show, t, GetMetrics()).Ok?
    ensures
      var m := GetMetrics();
      var r := WithUnits(show, t, m).value;
      var x := t.data[c][i];
      && c in r.data && i < |r.data[c]|
      && (c !in m.units ==> r.data[c][i] == x)
      && (c in m.units && c !in m.convert ==> r.data[c][i] == Tagged(Str(show, x), m.units[c]))
      && (c in m.convert ==>
            Calc(show, x, m.convert[c].value, m.convert[c].op).Ok? &&
            r.data[c][i] == Tagged(Calc(show, x, m.convert[c].value, m.convert[c].op).value, m.units[c]))
  {
    var m := GetMetrics();
    var conv := ConvertTable(show, t, m.convert).value;
    assert conv.data[c] == ConvertColumn(show, c, t.data[c], m.convert).value;
  }

  /** On a finite number in a converted column the unit layer yields the
      text of the exactly converted value with the column's unit. */
  lemma WithUnitsConverted(show: real -> string, t: Table, c: string, i: nat, a: real)
    requires t.Valid() && c in t.columns && i < t.height && WithUnits(show, t, GetMetrics()).Ok?
    requires c in GetMetrics().convert && t.data[c][i] == Real(a)
    ensures
      var m := GetMetrics();
      WithUnits(show, t, m).value.data[c][i] == Tagged(show(Exact(a, m.convert[c].value, m.convert[c].op)), m.units[c])
  {
    var m := GetMetrics();
    WithUnitsCell(show, t, c, i);
    CalcFinite(show, a, m.convert[c].value, m.convert[c].op);
  }
}

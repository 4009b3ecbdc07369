/** The values a frame cell can hold, the distribution-to-scalar reduction
    applied by the run-summary walker, and the zero fill applied to every
    walked table. */
module Cells {
  import opened Results

  /** A Python float: a real number, NaN or an infinity. Reals stand in for
      IEEE doubles, without rounding. */
  datatype Float = Finite(r: real) | NaN | Inf(negative: bool)

  /** One cell of a frame. `Tagged` is the {value, units} record the unit
      layer puts in place of a raw number. */
  datatype Cell =
    | Num(x: Float)
    | Text(s: string)
    | Flag(b: bool)
    | Tagged(value: string, units: string)

  /** pandas marks a missing cell with NaN. */
  const Missing: Cell := Num(NaN)
  const Zero: Cell := Num(Finite(0.0))

  function Real(r: real): Cell { Num(Finite(r)) }

  /** What an accessor of a provider record returns: a plain value, or a
      summary statistic object that exposes a mean. */
  datatype Probe =
    | Scalar(c: Cell)
    | Distribution(mean: Cell, stddev: Cell, median: Cell)

  /** A distribution is reduced to its mean; any other value is kept. */
  function FormatValue(p: Probe): (c: Cell)
    ensures p.Distribution? ==> c == p.mean
    ensures p.Scalar? ==> c == p.c
  {
    match p
    case Scalar(c) => c
    case Distribution(m, _, _) => m
  }

  /** `fillna(0)`: a missing cell becomes 0, every other cell is kept. */
  function FillNa(c: Cell): (d: Cell)
    ensures d != Missing
    ensures c != Missing ==> d == c
    ensures c == Missing ==> d == Zero
  {
    if c == Missing then Zero else c
  }

  function FillNaAll(s: seq<Cell>): (r: seq<Cell>)
    ensures |r| == |s|
    ensures forall i :: 0 <= i < |s| ==> r[i] == FillNa(s[i])
  {
    seq(|s|, i requires 0 <= i < |s| => FillNa(s[i]))
  }

  /** The number a cell stands for in arithmetic: booleans count as 0 and 1,
      as in Python. Text and unit records are not numbers. */
  function Numeric(c: Cell): Option<Float> {
    match c
    case Num(x) => Some(x)
    case Flag(b) => Some(Finite(if b then 1.0 else 0.0))
    case _ => None
  }

  /** The real a grouped mean or sum adds up for a cell: its finite value,
      and 0 for anything else. The zero-filled walked tables hold no NaN;
      that their metrics are finite numbers is assumed of the provider. */
  function RealOf(c: Cell): real {
    match Numeric(c)
    case Some(Finite(r)) => r
    case _ => 0.0
  }

  /** Element-wise Series division (numpy semantics): dividing by zero
      gives an infinity, or NaN for 0/0. */
  function Divide(a: Cell, b: Cell): (q: Cell)
    ensures q.Num?
    ensures RealOf(b) != 0.0 && IsFinite(a) && IsFinite(b) ==> q == Real(RealOf(a) / RealOf(b))
    ensures IsFinite(a) && IsFinite(b) && RealOf(b) == 0.0 ==>
              q == (if RealOf(a) == 0.0 then Missing else Num(Inf(RealOf(a) < 0.0)))
  {
    match (Numeric(a), Numeric(b))
    case (Some(Finite(x)), Some(Finite(y))) =>
      if y != 0.0 then Real(x / y)
      else if x == 0.0 then Missing
      else Num(Inf(x < 0.0))
    case (Some(Finite(x)), Some(Inf(_))) => Real(0.0)
    case (Some(Inf(n)), Some(Finite(y))) =>
      if y == 0.0 then Num(Inf(n)) else Num(Inf(n != (y < 0.0)))
    case _ => Missing
  }

  predicate IsFinite(c: Cell) {
    Numeric(c).Some? && Numeric(c).value.Finite?
  }
}

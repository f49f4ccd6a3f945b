/** One cell of the player table and the elementwise float arithmetic the
    dashboard performs on whole columns. */
module Cells {
  import opened Numbers

  /** A cell read from the spreadsheet or computed from one: a finite number,
      a signed infinity (what float division by zero gives), NaN (a missing
      value, `None` or not-a-number alike), or text. */
  datatype Cell = Num(v: real) | Inf(negative: bool) | NaN | Text(s: string)

  /** A row maps column labels to cells. */
  type Row = map<string, Cell>

  /** The cell of `r` under `column`; NaN when the row has no such column. */
  function Get(r: Row, column: string): Cell
  {
    if column in r then r[column] else NaN
  }

  /** What a pandas `sum` adds for a cell: NaN is skipped. */
  function Addend(c: Cell): real
  {
    if c.Num? then c.v else 0.0
  }

  /** Float division `a / b`: defined when both are numbers and `b` is not
      zero; `x / 0` is a signed infinity and `0 / 0` is NaN. */
  function Divide(a: Cell, b: Cell): (q: Cell)
    ensures !q.Text?
    ensures a.Num? && b.Num? ==> (q.Num? <==> b.v != 0.0)
    ensures q.Num? && a.Num? && b.Num? ==> q.v * b.v == a.v
    ensures a.Num? && b.Num? && b.v == 0.0 ==> (q.NaN? <==> a.v == 0.0)
    ensures a.Num? && b.Num? && b.v == 0.0 && a.v != 0.0 ==> q == Inf(a.v < 0.0)
    ensures a.NaN? || b.NaN? || a.Text? || b.Text? ==> q.NaN?
  {
    match (a, b)
    case (Num(x), Num(y)) =>
      if y != 0.0 then Num(x / y) else if x == 0.0 then NaN else Inf(x < 0.0)
    case (Inf(n), Num(y)) => Inf(if y < 0.0 then !n else n)
    case (Num(_), Inf(_)) => Num(0.0)
    case _ => NaN
  }

  /** Float multiplication by a positive constant. */
  function Scale(c: Cell, k: real): (r: Cell)
    requires k > 0.0
    ensures r.Num? <==> c.Num?
    ensures r.Num? ==> r.v == c.v * k
    ensures !r.Text? && (r.Inf? <==> c.Inf?)
  {
    match c
    case Num(x) => Num(x * k)
    case Inf(n) => Inf(n)
    case _ => NaN
  }

  /** `round(2)` of a float cell; NaN and infinities pass through. */
  function RoundCell2(c: Cell): (r: Cell)
    ensures r.Num? <==> c.Num?
    ensures r.Num? ==> r.v == Round2(c.v)
    ensures !c.Num? ==> r == c
  {
    if c.Num? then Num(Round2(c.v)) else c
  }

  /** `round(0)` of a float cell; NaN and infinities pass through. */
  function RoundCell0(c: Cell): (r: Cell)
    ensures r.Num? <==> c.Num?
    ensures r.Num? ==> r.v == Round0(c.v)
    ensures !c.Num? ==> r == c
  {
    if c.Num? then Num(Round0(c.v)) else c
  }

  /** The percentage text of line 139: `f"{x:.2f}%"` unless `pd.isna(x)`,
      which is "N/A". An infinity is not NaN to `pd.isna`, and Python
      renders it as "inf" or "-inf". */
  function PercentText(c: Cell): (s: string)
    requires !c.Text?
    ensures s == "N/A" <==> c.NaN?
    ensures !c.NaN? ==> |s| >= 1 && s[|s| - 1] == '%'
    ensures c.Inf? ==> s == if c.negative then "-inf%" else "inf%"
    ensures c.Num? ==> ParseFixed2(s[..|s| - 1]) == Some(Round2(c.v))
  {
    match c
    case NaN => "N/A"
    case Inf(negative) => (if negative then "-inf" else "inf") + "%"
    case Num(x) =>
      var digits := FormatFixed2(x);
      FormatFixed2RoundTrip(x);
      assert (digits + "%")[..|digits|] == digits;
      digits + "%"
  }
}

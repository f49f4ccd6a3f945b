/** The player table as a value: its ordered column labels and its rows, with
    the two whole-table operations pandas performs for the script: assigning a
    column (`df[name] = values`) and selecting columns (`df[labels]`). */
module Tables {
  import opened Cells

  datatype Table = Table(columns: seq<string>, rows: seq<Row>)

  ghost function ColumnSet(columns: seq<string>): set<string>
  {
    set c | c in columns
  }

  /** Every row holds a cell for exactly the table's columns. */
  ghost predicate WellFormed(t: Table)
  {
    forall r :: r in t.rows ==> r.Keys == ColumnSet(t.columns)
  }

  /** `df[name] = values`: overwrites the column in place when the label
      exists, otherwise appends it as the last column. */
  function WithColumn(t: Table, name: string, values: seq<Cell>): (u: Table)
    requires |values| == |t.rows|
    ensures WellFormed(t) ==> WellFormed(u)
    ensures t.columns <= u.columns
    ensures forall c :: c in u.columns <==> c == name || c in t.columns
    ensures name in t.columns ==> u.columns == t.columns
    ensures name !in t.columns ==> u.columns == t.columns + [name]
    ensures |u.rows| == |t.rows|
    ensures forall i :: 0 <= i < |u.rows| ==> Get(u.rows[i], name) == values[i]
    ensures forall i, c :: 0 <= i < |u.rows| && c != name ==> Get(u.rows[i], c) == Get(t.rows[i], c)
  {
    var columns := if name in t.columns then t.columns else t.columns + [name];
    var rows := seq(|t.rows|, i requires 0 <= i < |t.rows| => t.rows[i][name := values[i]]);
    assert WellFormed(t) ==> forall r :: r in rows ==> r.Keys == ColumnSet(columns) by {
      if WellFormed(t) {
        forall r | r in rows ensures r.Keys == ColumnSet(columns) {
          var i :| 0 <= i < |rows| && rows[i] == r;
          assert t.rows[i] in t.rows;
        }
      }
    }
    Table(columns, rows)
  }

  /** The cells of one column, top to bottom (`df[column]`). */
  function ColumnValues(rows: seq<Row>, column: string): (cells: seq<Cell>)
    ensures |cells| == |rows|
    ensures forall x :: x in cells <==> exists i :: 0 <= i < |rows| && Get(rows[i], column) == x
  {
    var cells := seq(|rows|, i requires 0 <= i < |rows| => Get(rows[i], column));
    assert forall i :: 0 <= i < |rows| ==> cells[i] == Get(rows[i], column);
    cells
  }

  /** `df[labels]` for labels that all exist: the same rows, holding only the
      selected columns, in the order of `labels`. */
  function Project(t: Table, labels: seq<string>): (u: Table)
    requires forall c :: c in labels ==> c in t.columns
    ensures u.columns == labels && |u.rows| == |t.rows|
    ensures WellFormed(t) ==> WellFormed(u)
    ensures forall i, c :: 0 <= i < |u.rows| && c in labels ==> Get(u.rows[i], c) == Get(t.rows[i], c)
    ensures forall i, c :: 0 <= i < |u.rows| && c !in labels ==> c !in u.rows[i]
  {
    var rows := seq(|t.rows|, i requires 0 <= i < |t.rows| =>
      map c | c in t.rows[i] && c in labels :: t.rows[i][c]);
    assert WellFormed(t) ==> forall r :: r in rows ==> r.Keys == ColumnSet(labels) by {
      if WellFormed(t) {
        forall r | r in rows ensures r.Keys == ColumnSet(labels) {
          var i :| 0 <= i < |rows| && rows[i] == r;
          assert t.rows[i] in t.rows;
        }
      }
    }
    Table(labels, rows)
  }
}

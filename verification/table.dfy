/** Rows and tables of the lifecycle dashboard (dashboard/app.py).

    A pandas DataFrame is modelled by its set of column names and its rows in
    index order; a row maps each column name to a cell.  Cells are either exact
    numbers or text labels (health classes, predicted classes). */
module Table {

  /** One cell of the frame. */
  datatype Cell = Num(x: real) | Text(s: string)

  /** One row: column name to cell. */
  type Row = map<string, Cell>

  /** A DataFrame: its columns and its rows, in index order. */
  datatype Frame = Frame(columns: set<string>, rows: seq<Row>)

  /** Every row holds exactly the frame's columns. */
  ghost predicate WellFormed(t: Frame) {
    forall i | 0 <= i < |t.rows| :: t.rows[i].Keys == t.columns
  }

  /** `row.get(c, 0)` can take part in arithmetic or an ordering test:
      the column is absent or holds a number. */
  predicate NumericOrAbsent(row: Row, c: string) {
    c in row ==> row[c].Num?
  }

  /** Column `c` can take part in arithmetic in every row. */
  ghost predicate NumericColumn(t: Frame, c: string) {
    forall i | 0 <= i < |t.rows| :: NumericOrAbsent(t.rows[i], c)
  }

  /** `row.get(c, 0)` on a numeric column: the value, or 0 when absent. */
  function Metric(row: Row, c: string): (v: real)
    requires NumericOrAbsent(row, c)
    ensures c in row ==> row[c] == Num(v)
    ensures c !in row ==> v == 0.0
  {
    if c in row then row[c].x else 0.0
  }

  /** `df[c] = col`: column `c` of row i becomes `col[i]`, added when new. */
  function Assign(t: Frame, c: string, col: seq<Cell>): (u: Frame)
    requires |col| == |t.rows|
    ensures u.columns == t.columns + {c}
    ensures |u.rows| == |t.rows|
    ensures forall i | 0 <= i < |t.rows| :: u.rows[i] == t.rows[i][c := col[i]]
    ensures WellFormed(t) ==> WellFormed(u)
  {
    Frame(t.columns + {c}, seq(|t.rows|, i requires 0 <= i < |t.rows| => t.rows[i][c := col[i]]))
  }

  /** A column holding the same cell in each of `n` rows (`df[c] = v`). */
  function Constant(n: nat, v: Cell): (col: seq<Cell>)
    ensures |col| == n && forall i | 0 <= i < n :: col[i] == v
  {
    seq(n, _ => v)
  }

  /** Column `c` of a frame, row by row (`df[c]`). */
  function ColumnOf(t: Frame, c: string): (col: seq<Cell>)
    requires WellFormed(t) && c in t.columns
    ensures |col| == |t.rows|
    ensures forall i | 0 <= i < |t.rows| :: col[i] == t.rows[i][c]
  {
    seq(|t.rows|, i requires 0 <= i < |t.rows| && c in t.rows[i] => t.rows[i][c])
  }
}

/** The tabular shape every reader produces and every later stage consumes:
    named columns in display order and rows of cells aligned with them. */
module Tables {

  /** A cell. `Null` is pandas' missing-value marker; `Zero` is the 0 the
      zero-fill policy writes; parsed numbers and text are kept opaque. */
  datatype Value = Null | Zero | Num(n: int) | Str(text: string)

  type Row = seq<Value>

  datatype Frame = Frame(cols: seq<string>, rows: seq<Row>)

  /** Every row holds exactly one cell per column. */
  predicate Rectangular(f: Frame)
  {
    forall i :: 0 <= i < |f.rows| ==> |f.rows[i]| == |f.cols|
  }

  type Table = f: Frame | Rectangular(f) witness Frame([], [])

  predicate HasNull(row: Row)
  {
    Null in row
  }

  /** No cell of the table is missing. */
  predicate NullFree(f: Frame)
  {
    forall i :: 0 <= i < |f.rows| ==> !HasNull(f.rows[i])
  }

  /** The number of rows of all tables together. */
  function TotalRows(ts: seq<Table>): nat
  {
    if ts == [] then 0 else |ts[0].rows| + TotalRows(ts[1..])
  }

  /** The number of columns of all tables together. */
  function TotalCols(ts: seq<Table>): nat
  {
    if ts == [] then 0 else |ts[0].cols| + TotalCols(ts[1..])
  }

  /** Every table's column names, table after table. */
  function AllColumns(ts: seq<Table>): (r: seq<string>)
    ensures |r| == TotalCols(ts)
    ensures forall c :: c in r <==> exists i :: 0 <= i < |ts| && c in ts[i].cols
  {
    if ts == [] then []
    else
      var rest := AllColumns(ts[1..]);
      assert forall i :: 0 < i < |ts| ==> ts[i] == ts[1..][i - 1];
      ts[0].cols + rest
  }
}

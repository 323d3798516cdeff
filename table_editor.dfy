/** The OCR table editor of the review page
    (src/components/review/TableEditor.tsx). Every handler builds a new grid
    from the old one; a grid is rectangular when every row has one value per
    column, and every handler keeps it so. */
module TableEditor {
  import opened Wrappers
  import opened Text

  /** A cell: text, or `null` for an empty one. */
  type Cell = Option<string>

  datatype Row = Row(rowLabel: string, values: seq<Cell>)

  datatype Grid = Grid(columns: seq<string>, rows: seq<Row>)

  /** Every row has exactly one value per column. */
  predicate Rectangular(g: Grid) {
    forall k :: 0 <= k < |g.rows| ==> |g.rows[k].values| == |g.columns|
  }

  /** `filter((_, i) => i !== index)`: drop position `index`, if there is one. */
  function RemoveAt<T>(s: seq<T>, index: int): (r: seq<T>)
    ensures 0 <= index < |s| ==> |r| == |s| - 1 && r == s[..index] + s[index + 1..]
    ensures !(0 <= index < |s|) ==> r == s
  {
    if 0 <= index < |s| then s[..index] + s[index + 1..] else s
  }

  /** `value || null`: the empty string is stored as an empty cell. */
  function CellOf(value: string): (c: Cell)
    ensures c.None? <==> value == ""
    ensures c.Some? ==> c.value == value
  {
    if value == "" then None else Some(value)
  }

  /** `handleColumnChange`: rename one column header. */
  function ColumnChange(g: Grid, index: int, value: string): (r: Grid)
    requires 0 <= index < |g.columns|
    ensures r.rows == g.rows && |r.columns| == |g.columns|
    ensures r.columns[index] == value
    ensures forall j :: 0 <= j < |g.columns| && j != index ==> r.columns[j] == g.columns[j]
    ensures Rectangular(g) ==> Rectangular(r)
  {
    g.(columns := g.columns[index := value])
  }

  /** `handleRowLabelChange`: relabel one row. */
  function RowLabelChange(g: Grid, rowIndex: int, value: string): (r: Grid)
    requires 0 <= rowIndex < |g.rows|
    ensures r.columns == g.columns && |r.rows| == |g.rows|
    ensures r.rows[rowIndex] == g.rows[rowIndex].(rowLabel := value)
    ensures forall k :: 0 <= k < |g.rows| && k != rowIndex ==> r.rows[k] == g.rows[k]
    ensures Rectangular(g) ==> Rectangular(r)
  {
    g.(rows := g.rows[rowIndex := g.rows[rowIndex].(rowLabel := value)])
  }

  /** `handleCellChange`: set one cell, storing "" as an empty cell. */
  function CellChange(g: Grid, rowIndex: int, colIndex: int, value: string): (r: Grid)
    requires 0 <= rowIndex < |g.rows| && 0 <= colIndex < |g.rows[rowIndex].values|
    ensures r.columns == g.columns && |r.rows| == |g.rows|
    ensures r.rows[rowIndex].rowLabel == g.rows[rowIndex].rowLabel
    ensures |r.rows[rowIndex].values| == |g.rows[rowIndex].values|
    ensures r.rows[rowIndex].values[colIndex] == (if value == "" then None else Some(value))
    ensures forall j :: 0 <= j < |g.rows[rowIndex].values| && j != colIndex ==>
              r.rows[rowIndex].values[j] == g.rows[rowIndex].values[j]
    ensures forall k :: 0 <= k < |g.rows| && k != rowIndex ==> r.rows[k] == g.rows[k]
    ensures Rectangular(g) ==> Rectangular(r)
  {
    var row := g.rows[rowIndex];
    g.(rows := g.rows[rowIndex := row.(values := row.values[colIndex := CellOf(value)])])
  }

  /** The header given to a new column. */
  function NewColumnName(count: nat): string {
    "Kolumn " + NatToString(count + 1)
  }

  /** The label given to a new row. */
  function NewRowLabel(count: nat): string {
    "Rad " + NatToString(count + 1)
  }

  /** `addColumn`: a column "Kolumn {n+1}" at the end, with an empty cell in
      every row. */
  function AddColumn(g: Grid): (r: Grid)
    ensures r.columns == g.columns + [NewColumnName(|g.columns|)]
    ensures |r.rows| == |g.rows|
    ensures forall k :: 0 <= k < |g.rows| ==>
              r.rows[k] == Row(g.rows[k].rowLabel, g.rows[k].values + [None])
    ensures Rectangular(g) ==> Rectangular(r)
  {
    Grid(g.columns + [NewColumnName(|g.columns|)],
         seq(|g.rows|, k requires 0 <= k < |g.rows| => g.rows[k].(values := g.rows[k].values + [None])))
  }

  /** `removeColumn`: with at most one column nothing changes; otherwise the
      column `index` goes from the headers and from every row. */
  function RemoveColumn(g: Grid, index: int): (r: Grid)
    ensures |g.columns| <= 1 ==> r == g
    ensures |g.columns| > 1 ==>
              && r.columns == RemoveAt(g.columns, index)
              && |r.rows| == |g.rows|
              && (forall k :: 0 <= k < |g.rows| ==>
                    r.rows[k] == Row(g.rows[k].rowLabel, RemoveAt(g.rows[k].values, index)))
    ensures Rectangular(g) ==> Rectangular(r)
  {
    if |g.columns| <= 1 then g
    else
      Grid(RemoveAt(g.columns, index),
           seq(|g.rows|, k requires 0 <= k < |g.rows| => g.rows[k].(values := RemoveAt(g.rows[k].values, index))))
  }

  /** `addRow`: a row "Rad {m+1}" at the end with one empty cell per column. */
  function AddRow(g: Grid): (r: Grid)
    ensures r.columns == g.columns
    ensures r.rows == g.rows + [Row(NewRowLabel(|g.rows|), seq(|g.columns|, _ => None))]
    ensures Rectangular(g) ==> Rectangular(r)
  {
    g.(rows := g.rows + [Row(NewRowLabel(|g.rows|), seq(|g.columns|, _ => None))])
  }

  /** `removeRow`: with at most one row nothing changes; otherwise row
      `index` goes. */
  function RemoveRow(g: Grid, index: int): (r: Grid)
    ensures |g.rows| <= 1 ==> r == g
    ensures |g.rows| > 1 ==> r == Grid(g.columns, RemoveAt(g.rows, index))
    ensures Rectangular(g) ==> Rectangular(r)
  {
    if |g.rows| <= 1 then g else g.(rows := RemoveAt(g.rows, index))
  }

  /** Removing the column just added gives the grid back, once there was at
      least one column. */
  lemma AddThenRemoveColumn(g: Grid)
    requires Rectangular(g) && |g.columns| >= 1
    ensures RemoveColumn(AddColumn(g), |g.columns|) == g
  {
    var a := AddColumn(g);
    var r := RemoveColumn(a, |g.columns|);
    assert (g.columns + [NewColumnName(|g.columns|)])[..|g.columns|] == g.columns;
    assert |r.rows| == |g.rows|;
    forall k | 0 <= k < |g.rows| ensures r.rows[k] == g.rows[k] {
      assert (g.rows[k].values + [None])[..|g.columns|] == g.rows[k].values;
    }
  }

  /** Removing the row just added gives the grid back, once there was at
      least one row. */
  lemma AddThenRemoveRow(g: Grid)
    requires |g.rows| >= 1
    ensures RemoveRow(AddRow(g), |g.rows|) == g
  {
    var a := AddRow(g);
    assert a.rows[..|g.rows|] == g.rows;
  }

  /** The grid never loses its last column or its last row. */
  lemma NeverEmptied(g: Grid, index: int)
    requires |g.columns| >= 1 && |g.rows| >= 1
    ensures |RemoveColumn(g, index).columns| >= 1
    ensures |RemoveRow(g, index).rows| >= 1
  {
  }

  /** Writing a cell and reading it back gives the text, or an empty cell
      for "". */
  lemma CellRoundTrip(g: Grid, rowIndex: int, colIndex: int, value: string)
    requires 0 <= rowIndex < |g.rows| && 0 <= colIndex < |g.rows[rowIndex].values|
    ensures CellChange(g, rowIndex, colIndex, value).rows[rowIndex].values[colIndex].GetOr("") == value
  {
  }
}

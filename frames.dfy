/**
 * An abstract pandas DataFrame, as the app's helpers use it: named columns and
 * rows of cells. A cell is text, an integer, or missing (NaN).
 */
module Frames {
  import opened Strings

  datatype Cell = Text(text: string) | Int(value: int) | Missing

  /** A row maps column names to cells. */
  type Row = map<string, Cell>

  datatype Frame = Frame(columns: seq<string>, rows: seq<Row>)

  /** The cell of `row` under `col`; a column the row lacks reads as NaN, as
      pandas aligns rows on the column index. */
  function Get(row: Row, col: string): Cell
  {
    if col in row then row[col] else Missing
  }

  /** The element-wise `==` of a column with a value: NaN equals nothing, not
      even NaN. */
  predicate CellEquals(a: Cell, b: Cell)
  {
    a != Missing && a == b
  }

  /** `str()` of a cell, as `astype(str)` renders it. */
  function AsStr(c: Cell): string
  {
    match c
    case Text(s) => s
    case Int(v) => if v < 0 then "-" + NatToString(-v) else NatToString(v)
    case Missing => "nan"
  }
}

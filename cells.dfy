/** Cells of an exported survey table and positional access to them. */
module Cells {

  /**
   * One cell: missing (a NaN after loading), a value that parses as a number,
   * or other text.
   */
  datatype Cell = Empty | Num(n: int) | Text(s: string)

  /** pandas `notna()` */
  predicate Present(c: Cell)
  {
    !c.Empty?
  }

  /** A table is a sequence of rows; a position outside a short row reads as missing. */
  type Rows = seq<seq<Cell>>

  function CellAt(rows: Rows, r: int, col: int): Cell
  {
    if 0 <= r < |rows| && 0 <= col < |rows[r]| then rows[r][col] else Empty
  }
}

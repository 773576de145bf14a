/** Cells of the rectangular playing field and the vector arithmetic the snake and the apple share. */
module Grid {

  /** A cell (x, y) of the field in cell units; a heading is a cell-sized step such as (1, 0). */
  type Cell = (int, int)

  /** The cell one step of heading `d` away from `c`. */
  function Add(c: Cell, d: Cell): Cell {
    (c.0 + d.0, c.1 + d.1)
  }

  /** The opposite heading. */
  function Neg(d: Cell): Cell {
    (-d.0, -d.1)
  }

  /** `c` lies on a field of `cols` columns and `rows` rows. */
  predicate InGrid(c: Cell, cols: int, rows: int) {
    0 <= c.0 < cols && 0 <= c.1 < rows
  }
}

/**
 * Apple placement of game/apple.py. An apple is a value: spawn_random is a
 * factory over the free cells of the field, and the random choice is an
 * injected number `pick` that selects one of them.
 */
module AppleModel {
  import opened Grid

  /** An apple: the cell it sits on and the cell size in pixels (the drawing colour is left out). */
  datatype Apple = Apple(cellX: int, cellY: int, cellSize: int)

  /** The cell the apple occupies. */
  function CellOf(a: Apple): Cell {
    (a.cellX, a.cellY)
  }

  /** An apple reports exactly the cell it was built with. */
  lemma CellOfBuilt(x: int, y: int, cellSize: int)
    ensures CellOf(Apple(x, y, cellSize)) == (x, y)
  {
  }

  /** (x, y) comes strictly before (x', y') in the x-major order in which the field is scanned. */
  predicate Before(c: Cell, d: Cell) {
    c.0 < d.0 || (c.0 == d.0 && c.1 < d.1)
  }

  /** The cells (x, y), y from `y` up to `rows`, that are not forbidden, in increasing y. */
  function FreeInColumn(x: int, y: int, rows: int, forbidden: seq<Cell>): (r: seq<Cell>)
    ensures forall c :: c in r <==> c.0 == x && y <= c.1 < rows && c !in forbidden
    ensures forall i, j :: 0 <= i < j < |r| ==> Before(r[i], r[j])
    decreases rows - y
  {
    if y >= rows then []
    else
      var rest := FreeInColumn(x, y + 1, rows, forbidden);
      if (x, y) !in forbidden then [(x, y)] + rest else rest
  }

  /** The free cells of columns `x` up to `cols`, scanned x-major as the source's comprehension does. */
  function FreeFromColumn(x: int, cols: int, rows: int, forbidden: seq<Cell>): (r: seq<Cell>)
    ensures forall c :: c in r <==> x <= c.0 < cols && 0 <= c.1 < rows && c !in forbidden
    ensures forall i, j :: 0 <= i < j < |r| ==> Before(r[i], r[j])
    decreases cols - x
  {
    if x >= cols then []
    else
      var column := FreeInColumn(x, 0, rows, forbidden);
      var rest := FreeFromColumn(x + 1, cols, rows, forbidden);
      assert forall i, j :: 0 <= i < |column| && 0 <= j < |rest| ==> Before(column[i], rest[j]) by {
        forall i, j | 0 <= i < |column| && 0 <= j < |rest|
          ensures Before(column[i], rest[j])
        {
          assert column[i] in column && rest[j] in rest;
        }
      }
      column + rest
  }

  /** Every cell of the cols x rows field that is not forbidden, each once, in x-major order. */
  function FreeCells(cols: int, rows: int, forbidden: seq<Cell>): (r: seq<Cell>)
    ensures forall c :: c in r <==> InGrid(c, cols, rows) && c !in forbidden
    ensures forall i, j :: 0 <= i < j < |r| ==> Before(r[i], r[j])
  {
    FreeFromColumn(0, cols, rows, forbidden)
  }

  /** The index a random source value `pick` selects among `n` candidates; every index is selectable. */
  function PickIndex(n: nat, pick: nat): (i: nat)
    requires n > 0
    ensures i < n && (pick < n ==> i == pick)
  {
    pick % n
  }

  /**
   * A new apple on the free cell selected by `pick`, or on (0, 0) when there is
   * no free cell. `forbidden` is a value and is left as it was.
   */
  function SpawnRandom(cols: int, rows: int, cellSize: int, forbidden: seq<Cell>, pick: nat): (a: Apple)
    ensures a.cellSize == cellSize
    ensures FreeCells(cols, rows, forbidden) != [] ==>
      CellOf(a) !in forbidden && InGrid(CellOf(a), cols, rows)
    ensures FreeCells(cols, rows, forbidden) == [] ==> CellOf(a) == (0, 0)
  {
    var free := FreeCells(cols, rows, forbidden);
    if free == [] then
      Apple(0, 0, cellSize)
    else
      var (x, y) := free[PickIndex(|free|, pick)];
      assert (x, y) in free;
      Apple(x, y, cellSize)
  }

  /** There is no free cell exactly when every cell of the field is forbidden (always so when cols or rows <= 0). */
  lemma NoFreeCellIffFull(cols: int, rows: int, forbidden: seq<Cell>)
    ensures FreeCells(cols, rows, forbidden) == [] <==>
      forall x, y :: 0 <= x < cols && 0 <= y < rows ==> (x, y) in forbidden
  {
    var free := FreeCells(cols, rows, forbidden);
    if free != [] {
      assert free[0] in free;
    }
  }

  /** Every free cell is a possible placement: some value of the random source selects it. */
  lemma EveryFreeCellReachable(cols: int, rows: int, cellSize: int, forbidden: seq<Cell>, c: Cell)
    requires InGrid(c, cols, rows) && c !in forbidden
    ensures exists pick: nat :: CellOf(SpawnRandom(cols, rows, cellSize, forbidden, pick)) == c
  {
    var free := FreeCells(cols, rows, forbidden);
    assert c in free;
    var i :| 0 <= i < |free| && free[i] == c;
    var a := SpawnRandom(cols, rows, cellSize, forbidden, i);
    assert PickIndex(|free|, i) == i;
    assert a == Apple(free[i].0, free[i].1, cellSize);
  }
}

/** The food item: one cell position that is moved to a random cell when eaten. */
module Foods {
  import opened Geometry

  /** `v` is one of the offsets 0, cell, ..., (n - 1) * cell along an axis of n cells. */
  ghost predicate OnAxis(v: int, n: int, cell: int) {
    exists k :: 0 <= k < n && v == k * cell
  }

  /** For a positive cell size, lying on one of the n cells of an axis means exactly: a multiple
      of the cell size between 0 and (n - 1) * cell. */
  lemma OnAxisIff(v: int, n: int, cell: int)
    requires cell > 0
    ensures OnAxis(v, n, cell) <==> 0 <= v <= (n - 1) * cell && IsMultiple(v, cell)
  {
    if OnAxis(v, n, cell) {
      var k :| 0 <= k < n && v == k * cell;
      MulLe(0, k, cell);
      MulLe(k, n - 1, cell);
    }
    if 0 <= v <= (n - 1) * cell && IsMultiple(v, cell) {
      var k :| v == k * cell;
      if k < 0 {
        MulLe(k, -1, cell);
      }
      if k > n - 1 {
        MulLe(n, k, cell);
      }
      assert 0 <= k < n && v == k * cell;
    }
  }

  /** A food position placed on the grid's axes is a cell of the grid. */
  lemma OnAxesInGrid(p: Pos, g: Grid)
    requires g.cellSize > 0
    requires OnAxis(p.x, g.cols, g.cellSize) && OnAxis(p.y, g.rows, g.cellSize)
    ensures InGrid(p, g) && OnCell(p, g)
  {
    OnAxisIff(p.x, g.cols, g.cellSize);
    OnAxisIff(p.y, g.rows, g.cellSize);
    MulLe(g.cols - 1, g.cols, g.cellSize);
    MulLe(g.rows - 1, g.rows, g.cellSize);
    assert (g.cols - 1) * g.cellSize < g.cols * g.cellSize;
    assert (g.rows - 1) * g.cellSize < g.rows * g.cellSize;
  }

  class Food {
    const grid: Grid
    var x: int
    var y: int

    /** A new food item sits at the pixel origin until it is first placed. */
    constructor (grid: Grid)
      ensures this.grid == grid && x == 0 && y == 0
    {
      this.grid := grid;
      x, y := 0, 0;
    }

    function Position(): Pos
      reads this
    {
      Pos(x, y)
    }

    /** Picks a random column and row and moves the food to that cell's corner; the choice of
        cell is left open (any cell of the grid may be picked, occupied or not). */
    method SetRandomLocation()
      requires grid.cols >= 1 && grid.rows >= 1
      modifies this`x, this`y
      ensures OnAxis(x, grid.cols, grid.cellSize) && OnAxis(y, grid.rows, grid.cellSize)
    {
      var col :| 0 <= col <= grid.cols - 1;
      x := col * grid.cellSize;
      var row :| 0 <= row <= grid.rows - 1;
      y := row * grid.cellSize;
    }
  }
}

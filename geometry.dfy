/** Pixel positions, direction vectors and the grid the game is played on. */
module Geometry {

  /** A pixel position; every position of the game lies on a multiple of the cell size. */
  datatype Pos = Pos(x: int, y: int)

  /** A direction vector, compared by value; the game uses the four unit vectors below. */
  datatype Dir = Dir(dx: int, dy: int)

  const Left := Dir(-1, 0)
  const Right := Dir(1, 0)
  const Up := Dir(0, -1)
  const Down := Dir(0, 1)

  /** Column count, row count and the side of one cell in pixels. */
  datatype Grid = Grid(cols: int, rows: int, cellSize: int)

  predicate IsUnit(d: Dir) {
    d == Left || d == Right || d == Up || d == Down
  }

  /** The reverse of a direction. */
  function Opposite(d: Dir): (o: Dir)
    ensures d != Dir(0, 0) ==> o != d
    ensures IsUnit(d) ==> IsUnit(o)
  {
    Dir(-d.dx, -d.dy)
  }

  /** The position one cell away from `p` along `d`. */
  function Move(p: Pos, d: Dir, cell: int): Pos {
    Pos(p.x + d.dx * cell, p.y + d.dy * cell)
  }

  /** The pixel rectangle covered by the grid's cells. */
  predicate InGrid(p: Pos, g: Grid) {
    0 <= p.x < g.cols * g.cellSize && 0 <= p.y < g.rows * g.cellSize
  }

  ghost predicate IsMultiple(v: int, cell: int) {
    exists k :: v == k * cell
  }

  /** `p` is the corner of a cell: both coordinates are multiples of the cell size. */
  ghost predicate OnCell(p: Pos, g: Grid) {
    IsMultiple(p.x, g.cellSize) && IsMultiple(p.y, g.cellSize)
  }

  /** A move by a whole number of cells keeps a position on a cell corner. */
  lemma MoveKeepsOnCell(p: Pos, d: Dir, g: Grid)
    requires OnCell(p, g)
    ensures OnCell(Move(p, d, g.cellSize), g)
  {
    var c := g.cellSize;
    var kx :| p.x == kx * c;
    var ky :| p.y == ky * c;
    assert p.x + d.dx * c == (kx + d.dx) * c;
    assert p.y + d.dy * c == (ky + d.dy) * c;
  }

  lemma MulLe(a: int, b: int, c: int)
    requires a <= b && 0 <= c
    ensures a * c <= b * c
  {
    assert b * c - a * c == (b - a) * c;
  }

  /** Cell index a of an axis of n cells starts inside the axis's pixel range. */
  lemma CellStartInRange(a: int, n: int, c: int)
    requires 0 <= a < n && c > 0
    ensures 0 <= a * c < n * c
  {
    MulLe(0, a, c);
    MulLe(a, n - 1, c);
    MulLe(n - 1, n, c);
  }

  /** A multiple of `c` below `n * c` leaves room for one more cell. */
  lemma NextMultipleFits(k: int, n: int, c: int)
    requires c > 0 && k * c < n * c
    ensures (k + 1) * c <= n * c
  {
    if k >= n {
      MulLe(n, k, c);
    }
    MulLe(k + 1, n, c);
  }
}

/** The snake: an ordered list of segment positions, head first, and a direction of travel. */
module Snakes {
  import opened Geometry
  import opened Foods

  /** The body laid out by `build_segments`: n cells in a row on the start row, the i-th one
      (counting from 1) i cells left of the start column, whatever the direction. */
  function InitialBody(startX: int, startY: int, cell: int, n: int): (body: seq<Pos>)
    ensures |body| == if n <= 0 then 0 else n
    decreases n
  {
    if n <= 0 then []
    else InitialBody(startX, startY, cell, n - 1) + [Pos((startX - n) * cell, startY * cell)]
  }

  /** Segment i (from 0) of the initial body is cell (startX - 1 - i, startY). */
  lemma {:induction false} InitialBodyAt(startX: int, startY: int, cell: int, n: int, i: int)
    requires 0 <= i < n
    ensures InitialBody(startX, startY, cell, n)[i] == Pos((startX - 1 - i) * cell, startY * cell)
  {
    if i < n - 1 {
      InitialBodyAt(startX, startY, cell, n - 1, i);
    }
  }

  /** The body after one move: a new head one cell along `d`, the old tail dropped. */
  function Advanced(body: seq<Pos>, d: Dir, cell: int): (moved: seq<Pos>)
    requires |body| >= 1
    ensures |moved| == |body|
    ensures moved[0] == Move(body[0], d, cell)
    ensures forall i :: 1 <= i < |moved| ==> moved[i] == body[i - 1]
  {
    [Move(body[0], d, cell)] + body[..|body| - 1]
  }

  /** The body after growing: the old body, then one cell past the tail along `d`. */
  function Grown(body: seq<Pos>, d: Dir, cell: int): (grown: seq<Pos>)
    requires |body| >= 1
    ensures |grown| == |body| + 1
    ensures grown[..|body|] == body
    ensures grown[|body|] == Move(body[|body| - 1], d, cell)
  {
    body + [Move(body[|body| - 1], d, cell)]
  }

  /** The boundary test of `check_edge_collision`: a coordinate below zero, or exactly equal to
      the grid's width or height in pixels. */
  predicate EdgeHit(head: Pos, g: Grid) {
    head.x < 0 || head.x == g.cols * g.cellSize || head.y < 0 || head.y == g.rows * g.cellSize
  }

  /** The head lies on the same cell as some other segment. */
  predicate SelfHit(body: seq<Pos>)
    requires |body| >= 1
  {
    exists i :: 1 <= i < |body| && body[i] == body[0]
  }

  /** The game-over test of `check_collisions`. */
  predicate Collides(body: seq<Pos>, g: Grid)
    requires |body| >= 1
  {
    EdgeHit(body[0], g) || SelfHit(body)
  }

  /** A head inside the grid never reports an edge collision. */
  lemma InGridNoEdgeHit(head: Pos, g: Grid)
    requires InGrid(head, g)
    ensures !EdgeHit(head, g)
  {
  }

  /** Although the upper bounds are tested with `==` only, a head that starts on a cell of the
      grid and moves one cell in a unit direction reports an edge collision exactly when it has
      left the grid. */
  lemma StepLeavesGridOnlyAtEdge(head: Pos, d: Dir, g: Grid)
    requires g.cellSize > 0 && IsUnit(d)
    requires InGrid(head, g) && OnCell(head, g)
    ensures EdgeHit(Move(head, d, g.cellSize), g) <==> !InGrid(Move(head, d, g.cellSize), g)
  {
    var c := g.cellSize;
    var next := Move(head, d, c);
    if d == Right {
      var k :| head.x == k * c;
      NextMultipleFits(k, g.cols, c);
      assert next.x == (k + 1) * c;
    } else if d == Down {
      var k :| head.y == k * c;
      NextMultipleFits(k, g.rows, c);
      assert next.y == (k + 1) * c;
    }
  }

  /** A one-segment snake can never run into itself. */
  lemma SingleSegmentNoSelfHit(body: seq<Pos>)
    requires |body| == 1
    ensures !SelfHit(body)
  {
  }

  /** The initial body never overlaps itself when the cell size is non-zero. */
  lemma InitialBodyNoSelfHit(startX: int, startY: int, cell: int, n: int)
    requires cell != 0 && n >= 1
    ensures !SelfHit(InitialBody(startX, startY, cell, n))
  {
    var body := InitialBody(startX, startY, cell, n);
    forall i | 1 <= i < n
      ensures body[i] != body[0]
    {
      InitialBodyAt(startX, startY, cell, n, 0);
      InitialBodyAt(startX, startY, cell, n, i);
      assert (startX - 1) * cell - (startX - 1 - i) * cell == i * cell;
      assert i * cell != 0;
    }
  }

  /** On a grid at least two columns wide and one row high, with a positive cell size, the
      initial head lies on a cell of the grid. */
  lemma InitialHeadOnGrid(g: Grid, n: int)
    requires g.cellSize > 0 && g.cols >= 2 && g.rows >= 1 && n >= 1
    ensures InGrid(InitialBody(g.cols / 2, g.rows / 2, g.cellSize, n)[0], g)
    ensures OnCell(InitialBody(g.cols / 2, g.rows / 2, g.cellSize, n)[0], g)
  {
    var c := g.cellSize;
    var head := InitialBody(g.cols / 2, g.rows / 2, c, n)[0];
    assert head == Pos((g.cols / 2 - 1) * c, (g.rows / 2) * c) by {
      InitialBodyAt(g.cols / 2, g.rows / 2, c, n, 0);
    }
    CellStartInRange(g.cols / 2 - 1, g.cols, c);
    CellStartInRange(g.rows / 2, g.rows, c);
  }

  /** A grown cell never survives the next move: moving after growing keeps the whole old body
      behind the new head, so the snake is one cell longer than before it grew. */
  lemma GrowthKeptByNextMove(body: seq<Pos>, grow: Dir, move: Dir, cell: int)
    requires |body| >= 1
    ensures Advanced(Grown(body, grow, cell), move, cell) == [Move(body[0], move, cell)] + body
  {
    var grown := Grown(body, grow, cell);
    assert grown[..|grown| - 1] == body;
  }

  class Snake {
    const grid: Grid
    const startX: int
    const startY: int
    var direction: Dir
    var segments: seq<Pos>

    /** `update`, `add_segment` and the collision queries all read the head or the tail. */
    ghost predicate Valid()
      reads this
    {
      |segments| >= 1
    }

    /** Builds `size` segments from the start cell (cols // 2, rows // 2); the snake is usable
        exactly when `size` is at least one. */
    constructor (grid: Grid, direction: Dir, size: int)
      ensures this.grid == grid && this.direction == direction
      ensures startX == grid.cols / 2 && startY == grid.rows / 2
      ensures segments == InitialBody(startX, startY, grid.cellSize, size)
      ensures Valid() <==> size >= 1
    {
      this.grid := grid;
      startX := grid.cols / 2;
      startY := grid.rows / 2;
      this.direction := direction;
      segments := [];
      new;
      BuildSegments(size);
    }

    /** Appends the cells (startX - i, startY) for i = 1 .. size, in pixels. */
    method BuildSegments(size: int)
      modifies this`segments
      ensures segments == old(segments) + InitialBody(startX, startY, grid.cellSize, size)
    {
      var i := 1;
      while i <= size
        invariant 1 <= i <= if size < 1 then 1 else size + 1
        invariant segments == old(segments) + InitialBody(startX, startY, grid.cellSize, i - 1)
      {
        segments := segments + [Pos((startX - i) * grid.cellSize, startY * grid.cellSize)];
        i := i + 1;
      }
    }

    /** Grows the snake by one cell past its tail, along the current direction. */
    method AddSegment()
      requires Valid()
      modifies this`segments
      ensures Valid()
      ensures segments == Grown(old(segments), direction, grid.cellSize)
    {
      var tail := segments[|segments| - 1];
      segments := segments + [Pos(tail.x + direction.dx * grid.cellSize, tail.y + direction.dy * grid.cellSize)];
    }

    /** Drops the tail and inserts a new head one cell along the current direction. */
    method Update()
      requires Valid()
      modifies this`segments
      ensures Valid()
      ensures segments == Advanced(old(segments), direction, grid.cellSize)
    {
      var head := segments[0];
      segments := segments[..|segments| - 1];
      segments := [Pos(head.x + direction.dx * grid.cellSize, head.y + direction.dy * grid.cellSize)] + segments;
    }

    method CheckEdgeCollision() returns (hit: bool)
      requires Valid()
      ensures hit == EdgeHit(segments[0], grid)
    {
      var head := segments[0];
      if head.x < 0 || head.x == grid.cols * grid.cellSize || head.y < 0 || head.y == grid.rows * grid.cellSize {
        return true;
      }
      return false;
    }

    /** Compares the head with every later segment, stopping at the first match. */
    method CheckSegmentCollision() returns (hit: bool)
      requires Valid()
      ensures hit <==> exists i :: 1 <= i < |segments| && segments[i] == segments[0]
    {
      var head := segments[0];
      var i := 1;
      while i < |segments|
        invariant 1 <= i <= |segments|
        invariant forall j :: 1 <= j < i ==> segments[j] != head
      {
        var segment := segments[i];
        if head.x == segment.x && head.y == segment.y {
          return true;
        }
        i := i + 1;
      }
      return false;
    }

    method CheckCollisions() returns (hit: bool)
      requires Valid()
      ensures hit <==> EdgeHit(segments[0], grid) || SelfHit(segments)
    {
      var edge := CheckEdgeCollision();
      if edge {
        return true;
      }
      var own := CheckSegmentCollision();
      return own;
    }

    method Collide(food: Food) returns (hit: bool)
      requires Valid()
      ensures hit <==> segments[0] == food.Position()
    {
      var head := segments[0];
      if head.x == food.x && head.y == food.y {
        return true;
      }
      return false;
    }
  }
}

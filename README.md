# Snake — a Dafny model of the game state

This project models the game state of a single-file grid snake game (`snake.py`). The game has
three parts:

- the **snake** is a list of segment positions, head first, with a direction vector. Each frame
  it moves: the tail is dropped and a new head goes one cell along the direction. It can grow by
  one cell: the tail moved one cell along the direction of travel, which for a straight body
  repeats the segment before the tail; the next move drops that cell (`GrowthKeptByNextMove`). It reports collisions with the grid's edges and with itself, and
  whether its head is on the food.
- the **food** is one position. It starts at the pixel origin and jumps to a random cell of the
  grid whenever it is eaten.
- the **frame rule** of `main` has two steps. First the arrow keys turn the snake. Each arrow
  key is refused only when it reverses the direction left by the previous key, so a frame with
  two keys can turn the snake straight back (see "## Findings"). Then the snake moves, the game stops on a collision, and otherwise it grows,
  the food moves and the score goes up by one when the head is on the food.

Positions are in pixels, so every coordinate is a multiple of the cell size. The modules follow
the source:

- `Geometry` holds positions, direction vectors and the grid (column count, row count, cell
  size). This is the configuration the source keeps in module constants and in each object's
  `cols`, `rows` and `cell_size` fields.
- `Foods` holds class `Food`.
- `Snakes` holds class `Snake` and the value-level functions that specify its methods:
  `InitialBody`, `Advanced`, `Grown`, `EdgeHit`, `SelfHit` and `Collides`.
- `Game` holds the key rule, one frame (`Tick`), a run of frames (`Play`) and the start state
  (`Start`).

The Python methods that change state are class methods with `modifies` clauses. Each one's new
state is given by one of the value-level functions, and the lemmas about those functions carry
the game's properties. The read-only queries are methods too, and each is proved equal to its
specification predicate. `check_segment_collision` keeps its loop with an early return.

The model follows the code exactly on the start position:

- The head starts at cell `(cols // 2 - 1, rows // 2)`, not at the centre cell. With the default
  32 × 24 grid the head starts on cell (15, 12) and reaches (16, 12) after one move right, not
  (16, 12) and then (17, 12).
- The initial body always extends towards negative x, whatever the direction.

The column and row counts are integers here. The source computes them with `/` (true
division), and `//` on a positive divisor rounds down. For divisor 2 this agrees with Dafny's
`/` on every integer.

## Model

| member | source | states |
|---|---|---|
| `Snakes.InitialBody` | snake.py:38-41 | the initial body has exactly `size` segments (none when `size` is not positive) |
| `Snakes.InitialBodyAt` | snake.py:38-41 | segment i (from 0) of the initial body is cell `(startX - 1 - i, startY)` in pixels, independent of the direction |
| `Snakes.InitialBodyNoSelfHit` | snake.py:38-41 | with a non-zero cell size the initial body never overlaps itself, so a new snake reports no self collision |
| `Snakes.InitialHeadOnGrid` | snake.py:30-41 | on a grid at least 2 columns and 1 row large, the initial head lies on a cell of the grid |
| `Snakes.Snake.constructor` | snake.py:27-36 | start cell is `(cols // 2, rows // 2)`, the body is the initial body of `size` segments, the direction is kept, and the snake is usable (at least one segment) exactly when `size >= 1` |
| `Snakes.Snake.BuildSegments` | snake.py:38-41 | appends exactly the initial body to the segments already present |
| `Snakes.Grown` | snake.py:43-46 | growing adds exactly one segment, keeps every existing segment unchanged, and makes the new last segment the old tail moved one cell along the direction |
| `Snakes.Snake.AddSegment` | snake.py:43-46 | the new segment list is the grown body for the current direction; the snake stays usable |
| `Snakes.Advanced` | snake.py:80-86 | a move keeps the segment count, puts the new head one cell along the direction from the old head, and shifts every old segment but the tail one place back (`new[i] == old[i-1]`) |
| `Snakes.Snake.Update` | snake.py:80-86 | the new segment list is the advanced body for the current direction; the snake stays usable |
| `Snakes.GrowthKeptByNextMove` | snake.py:139-147 | the cell added by growing is dropped by the next move, which leaves the new head followed by the whole pre-growth body: the snake ends one segment longer |
| `Geometry.MoveKeepsOnCell` | snake.py:80-86 | a one-cell move keeps a position on a cell corner (both coordinates multiples of the cell size) |
| `Snakes.Snake.CheckEdgeCollision` | snake.py:48-56 | true exactly when the head has x < 0, x == cols × cell, y < 0 or y == rows × cell (equality, not ≥, on the upper bounds) |
| `Snakes.InGridNoEdgeHit` | snake.py:48-56 | a head with 0 ≤ x < cols × cell and 0 ≤ y < rows × cell never reports an edge collision |
| `Snakes.StepLeavesGridOnlyAtEdge` | snake.py:51-54 | for a head on a cell of the grid moved one cell in a unit direction, the equality test reports a collision exactly when the new head is off the grid |
| `Snakes.Snake.CheckSegmentCollision` | snake.py:58-64 | true exactly when some segment with index ≥ 1 equals the head |
| `Snakes.SingleSegmentNoSelfHit` | snake.py:58-64 | a one-segment snake never reports a self collision |
| `Snakes.Snake.CheckCollisions` | snake.py:66-69 | true exactly when the edge check or the self check holds |
| `Snakes.Snake.Collide` | snake.py:71-78 | true exactly when the head equals the food's position `(food.x, food.y)` |
| `Foods.Food.constructor` | snake.py:95-101 | a new food item sits at (0, 0) |
| `Foods.Food.SetRandomLocation` | snake.py:103-105 | afterwards x is k × cell for some column 0 ≤ k < cols and y is k × cell for some row 0 ≤ k < rows; which cell is not determined |
| `Foods.OnAxisIff` | snake.py:104-105 | for a positive cell size, such a coordinate is exactly a multiple of the cell size in [0, (n - 1) × cell] |
| `Foods.OnAxesInGrid` | snake.py:103-105 | a relocated food item lies on a cell of the grid |
| `Geometry.Opposite` | snake.py:20-24 | no non-zero direction is its own opposite, and the opposite of a unit direction is a unit direction |
| `Game.Turn` | snake.py:128-136 | a non-arrow key leaves the direction unchanged; an arrow key sets its direction unless that is the reverse of the current one, which is left unchanged; the result is never the reverse of a non-zero current direction |
| `Game.SteerAll` | snake.py:123-136 | the keys of one frame applied in order, each checked against the direction left by the previous key; a unit direction stays a unit direction |
| `Game.SteerAllCanReverse` | snake.py:128-136 | Up then Left in one frame turns a snake heading right to head left, its exact reverse |
| `Game.ReversalSelfCollides` | snake.py:139-142 | a move that takes the head of a snake of three or more segments onto its second segment makes the head meet the third segment, so the game ends |
| `Game.TwoKeysReverseScenario` | snake.py:123-142 | from the start body, Up then Left in the first frame ends the game |
| `Game.TurnFrom` | snake.py:128-136 | the corrected per-key rule: an arrow key is obeyed unless it reverses the direction the frame began with |
| `Game.TurnFromAgreesOnOneKey` | snake.py:128-136 | for a key checked against the current direction, the corrected rule equals the source's rule |
| `Game.SteerTick` | snake.py:123-136 | the corrected frame rule never yields the reverse of the frame's starting direction, and keeps unit directions unit |
| `Game.SteerTickOneKey` | snake.py:123-136 | with one key in a frame, the corrected rule and the source's rule agree |
| `Game.TwoKeysCorrectedScenario` | snake.py:123-142 | under the corrected rule the same frame turns the start snake up, and it does not collide |
| `Game.HandleKeys` | snake.py:123-136 | handling a frame's keys in order, each checked against the direction the previous key left, sets the direction to the source's frame rule `SteerAll` |
| `Game.Tick` | snake.py:138-147 | after the move: on a collision the game is over with the score unchanged, no growth and the food in place; otherwise if the new head is on the food the snake grows, the food moves to a grid cell and the score goes up by one, else nothing but the move changes; the score changes by exactly the change in length; a continuing frame keeps the head on a cell of the grid |
| `Game.Play` | snake.py:120-147 | over any sequence of frames it returns the trace of bodies and directions it went through: frame t turns the direction by the source's key rule `SteerAll` and then moves the body (a colliding move leaves the moved body; any other leaves it moved or moved and grown by one cell); a frame's move collides exactly when it is the last frame played and the game is over, so a game still running has played every frame; the final body and direction are the trace's last; a game over reports the score and its body collides; a game still running keeps its head on a cell of the grid, moving in a unit direction; the score always equals the number of segments gained |
| `Game.Start` | snake.py:111-120 | the start state: a 32 × 24 grid of 20-pixel cells, body cells (15, 12), (14, 12), (13, 12) heading right, food on a grid cell, score 0 |
| `Game.FirstMoveScenario` | snake.py:80-86 | the first move right takes the head from cell (15, 12) to (16, 12) and keeps three segments |

## Left out

- Drawing is not modelled. This covers `Snake.render`, `Food.render`, the screen fill and the display update, all of which are pygame calls with no state of the game in them.
- Event polling, `pygame.init`, the frame clock and process exit are not modelled. The keys pressed in each frame are a parameter of `Play` and `HandleKeys`.
- The quit event is not modelled. Printing the final score on game over is modelled as the returned `GameOver(score)`.
- `Play` runs a finite sequence of frames, while the source loops until the game ends.
- The probability distribution of `random.randint` is not modelled. The food's new cell is a nondeterministic choice over the grid's cells.
- The colours and the frame rate are cosmetic configuration and are not modelled.
- Python's float column and row counts (`640 / 20`) become the integers 32 and 24. In the source these floats reach `random.randint(0, self.cols - 1)` at snake.py:104-105; Python 3.12 and later reject a float bound there with a TypeError, so on such an interpreter the program as written stops at the first `set_random_location` call (snake.py:119), before any frame. The model gives the integer counts the program evidently means.
- Foods.Food.SetRandomLocation: requires at least one column and one row. With none, `random.randint` raises an error, and that error path is not modelled.
- Game.Tick: requires at least one column and one row for the same reason.
- Game.Play: the returned trace leaves out the food positions, so it does not say in which frames the snake eats. It says only that a frame that does not collide leaves the body moved or moved and grown by one cell; which of the two follows from the food position, as `Game.Tick` states.

## Findings

| source | as written | input that shows it | evidently intended | confidence | as-written member | corrected member |
|---|---|---|---|---|---|---|
| snake.py:128-136 | each key event is checked against the direction set by the previous event of the same frame | snake of 3 segments heading right, keys Up then Left in one frame: the direction becomes Left, the head moves onto the third segment and the game ends | a frame never reverses the snake: each key is checked against the direction it last moved in | medium, not executed | `Game.SteerAll`, `Game.SteerAllCanReverse`, `Game.TwoKeysReverseScenario` | `Game.SteerTick`, `Game.TwoKeysCorrectedScenario` |

/** The game loop of `main`: key handling, the per-frame step, the score and the start state.
    Drawing, event polling, the frame clock and process exit are not modelled: the keys pressed
    in each frame are a parameter and the outcome of a frame is a returned status. */
module Game {
  import opened Geometry
  import opened Foods
  import opened Snakes

  const ScreenWidth := 640
  const ScreenHeight := 480
  const CellSize := 20
  const Cols := ScreenWidth / CellSize
  const Rows := ScreenHeight / CellSize
  /** The default `size` of a snake. */
  const InitialSize := 3

  /** The body `main` starts with: cells (15, 12), (14, 12), (13, 12). */
  function StartBody(): seq<Pos> {
    [Pos(300, 240), Pos(280, 240), Pos(260, 240)]
  }

  /** A key-down event: one of the four arrow keys, or any other key. */
  datatype Key = ArrowLeft | ArrowRight | ArrowUp | ArrowDown | OtherKey

  /** The direction an arrow key asks for. */
  function Heading(key: Key): Dir
    requires !key.OtherKey?
  {
    match key
    case ArrowLeft => Left
    case ArrowRight => Right
    case ArrowUp => Up
    case ArrowDown => Down
  }

  /** The direction one key-down event leaves the snake with: an arrow key is obeyed unless it
      asks for the reverse of the current direction; any other key changes nothing. */
  function Turn(current: Dir, key: Key): (next: Dir)
    ensures key.OtherKey? ==> next == current
    ensures !key.OtherKey? && Heading(key) != Opposite(current) ==> next == Heading(key)
    ensures !key.OtherKey? && Heading(key) == Opposite(current) ==> next == current
    ensures current != Dir(0, 0) ==> next != Opposite(current)
    ensures IsUnit(current) ==> IsUnit(next)
  {
    match key
    case ArrowLeft => if current != Right then Left else current
    case ArrowRight => if current != Left then Right else current
    case ArrowUp => if current != Down then Up else current
    case ArrowDown => if current != Up then Down else current
    case OtherKey => current
  }

  /** The keys of one frame handled as the source does: each event is checked against the
      direction the previous event left, so the reversal check can be bypassed. */
  function SteerAll(current: Dir, keys: seq<Key>): (next: Dir)
    ensures IsUnit(current) ==> IsUnit(next)
    decreases |keys|
  {
    if keys == [] then current
    else Turn(SteerAll(current, keys[..|keys| - 1]), keys[|keys| - 1])
  }

  /** Up then Left in one frame turns a snake that is moving right straight round. */
  lemma SteerAllCanReverse()
    ensures SteerAll(Right, [ArrowUp, ArrowLeft]) == Opposite(Right)
  {
    assert [ArrowUp, ArrowLeft][..1] == [ArrowUp];
    assert [ArrowUp][..0] == [];
  }

  /** A move that takes the head of a snake of three or more segments onto its second segment
      (which is what reversing does: the second segment is one cell behind the head) lands the
      head on the third segment after the shift, so the frame ends the game. */
  lemma ReversalSelfCollides(body: seq<Pos>, back: Dir, cell: int)
    requires |body| >= 3
    requires body[1] == Move(body[0], back, cell)
    ensures SelfHit(Advanced(body, back, cell))
  {
    var moved := Advanced(body, back, cell);
    assert moved[2] == moved[0];
  }

  /** From the start position, Up then Left in the first frame ends the game as written. */
  lemma TwoKeysReverseScenario()
    ensures SelfHit(Advanced(StartBody(), SteerAll(Right, [ArrowUp, ArrowLeft]), CellSize))
  {
    assert SteerAll(Right, [ArrowUp, ArrowLeft]) == Left by {
      SteerAllCanReverse();
    }
    var body := StartBody();
    assert body[1] == Move(body[0], Left, CellSize);
    ReversalSelfCollides(body, Left, CellSize);
  }

  /** The reversal check, made against the direction the snake had when the frame began (the
      direction of its last move) rather than the one the previous key left. */
  function TurnFrom(moved: Dir, current: Dir, key: Key): (next: Dir)
    ensures key.OtherKey? ==> next == current
    ensures !key.OtherKey? && Heading(key) != Opposite(moved) ==> next == Heading(key)
    ensures !key.OtherKey? && Heading(key) == Opposite(moved) ==> next == current
  {
    match key
    case ArrowLeft => if moved != Right then Left else current
    case ArrowRight => if moved != Left then Right else current
    case ArrowUp => if moved != Down then Up else current
    case ArrowDown => if moved != Up then Down else current
    case OtherKey => current
  }

  /** A frame with a single key is handled the same way by both rules. */
  lemma TurnFromAgreesOnOneKey(d: Dir, key: Key)
    ensures TurnFrom(d, d, key) == Turn(d, key)
  {
  }

  /** The keys of one frame, every arrow key checked against the frame's starting direction. */
  function SteerTick(start: Dir, keys: seq<Key>): (next: Dir)
    ensures IsUnit(start) ==> IsUnit(next)
    ensures start != Dir(0, 0) ==> next != Opposite(start)
    decreases |keys|
  {
    if keys == [] then start
    else TurnFrom(start, SteerTick(start, keys[..|keys| - 1]), keys[|keys| - 1])
  }

  /** Under the corrected rule the same frame turns the start snake up, and it survives. */
  lemma TwoKeysCorrectedScenario()
    ensures SteerTick(Right, [ArrowUp, ArrowLeft]) == Up
    ensures !Collides(Advanced(StartBody(), Up, CellSize), Grid(Cols, Rows, CellSize))
  {
    assert [ArrowUp, ArrowLeft][..1] == [ArrowUp];
    assert [ArrowUp][..0] == [];
    var moved := Advanced(StartBody(), Up, CellSize);
    assert moved == [Pos(300, 220), Pos(300, 240), Pos(280, 240)];
  }

  /** With one key per frame the corrected rule is the rule of the source. */
  lemma SteerTickOneKey(d: Dir, key: Key)
    ensures SteerTick(d, [key]) == SteerAll(d, [key]) == Turn(d, key)
  {
    assert [key][..0] == [];
  }

  /** Handles the key-down events of one frame, in order; each arrow key is checked against the
      direction the previous event left. */
  method HandleKeys(snake: Snake, keys: seq<Key>)
    modifies snake`direction
    ensures snake.direction == SteerAll(old(snake.direction), keys)
  {
    ghost var start := snake.direction;
    for i := 0 to |keys|
      invariant snake.direction == SteerAll(start, keys[..i])
    {
      var key := keys[i];
      if key == ArrowLeft && snake.direction != Right {
        snake.direction := Left;
      } else if key == ArrowRight && snake.direction != Left {
        snake.direction := Right;
      } else if key == ArrowUp && snake.direction != Down {
        snake.direction := Up;
      } else if key == ArrowDown && snake.direction != Up {
        snake.direction := Down;
      }
      assert keys[..i + 1][..i] == keys[..i];
    }
    assert keys[..|keys|] == keys;
  }

  /** The outcome of a frame: play on, or the game is over with the final score. */
  datatype Status = Continue | GameOver(score: nat)

  /** A state the game can be in between frames: a usable snake whose head is on a cell of the
      grid and which moves along one of the four directions. */
  ghost predicate Playing(snake: Snake)
    reads snake
  {
    snake.Valid() && snake.grid.cellSize > 0 && IsUnit(snake.direction) &&
    InGrid(snake.segments[0], snake.grid) && OnCell(snake.segments[0], snake.grid)
  }

  /** One frame after the keys: move; stop on a collision; otherwise, if the head is on the
      food, grow, move the food and add one to the score. */
  method Tick(snake: Snake, food: Food, score: nat) returns (status: Status, newScore: nat)
    requires snake.Valid()
    requires food.grid.cols >= 1 && food.grid.rows >= 1
    modifies snake`segments, food`x, food`y
    ensures snake.Valid()
    ensures var moved := Advanced(old(snake.segments), snake.direction, snake.grid.cellSize);
      if Collides(moved, snake.grid) then
        status == GameOver(score) && newScore == score && snake.segments == moved &&
        food.Position() == old(food.Position())
      else if moved[0] == old(food.Position()) then
        status == Continue && newScore == score + 1 &&
        snake.segments == Grown(moved, snake.direction, snake.grid.cellSize) &&
        OnAxis(food.x, food.grid.cols, food.grid.cellSize) &&
        OnAxis(food.y, food.grid.rows, food.grid.cellSize)
      else
        status == Continue && newScore == score && snake.segments == moved &&
        food.Position() == old(food.Position())
    ensures newScore - score == |snake.segments| - |old(snake.segments)|
    ensures old(Playing(snake)) && status == Continue ==> Playing(snake)
  {
    ghost var head := snake.segments[0];
    snake.Update();
    var collided := snake.CheckCollisions();
    if collided {
      return GameOver(score), score;
    }
    if old(Playing(snake)) {
      StepLeavesGridOnlyAtEdge(head, snake.direction, snake.grid);
      MoveKeepsOnCell(head, snake.direction, snake.grid);
    }
    var ate := snake.Collide(food);
    newScore := score;
    if ate {
      snake.AddSegment();
      food.SetRandomLocation();
      newScore := score + 1;
    }
    status := Continue;
  }

  /** The move of a frame that starts with body `before` and direction `d` ends the game. */
  predicate Crashes(before: seq<Pos>, d: Dir, g: Grid) {
    |before| >= 1 && Collides(Advanced(before, d, g.cellSize), g)
  }

  /** What one tick can do to the body: a move that collides leaves the moved body; any other
      move leaves the moved body, grown by one cell when the food was eaten. */
  predicate FrameStep(before: seq<Pos>, d: Dir, g: Grid, after: seq<Pos>) {
    |before| >= 1 &&
    var moved := Advanced(before, d, g.cellSize);
    if Collides(moved, g) then after == moved
    else after == moved || after == Grown(moved, d, g.cellSize)
  }

  /** The frames of `main` for a sequence of frames' key events: each frame steers, then ticks.
      `bodies[t]` and `dirs[t]` are the body and direction before frame t; frame t steers from
      `dirs[t]` to `dirs[t + 1]` and ticks from `bodies[t]` to `bodies[t + 1]`. A frame's move
      collides exactly when it is the last frame played and the game is over; a game still
      running has played every frame. The score is always the number of segments gained. */
  method Play(snake: Snake, food: Food, frames: seq<seq<Key>>)
    returns (status: Status, score: nat,
             ghost played: nat, ghost bodies: seq<seq<Pos>>, ghost dirs: seq<Dir>)
    requires Playing(snake)
    requires food.grid.cols >= 1 && food.grid.rows >= 1
    modifies snake`segments, snake`direction, food`x, food`y
    ensures snake.Valid()
    ensures played <= |frames| && |bodies| == played + 1 && |dirs| == played + 1
    ensures bodies[0] == old(snake.segments) && dirs[0] == old(snake.direction)
    ensures bodies[played] == snake.segments && dirs[played] == snake.direction
    ensures forall t :: 0 <= t < played ==>
      dirs[t + 1] == SteerAll(dirs[t], frames[t]) &&
      FrameStep(bodies[t], dirs[t + 1], snake.grid, bodies[t + 1])
    ensures forall t :: 0 <= t < played ==>
      (Crashes(bodies[t], dirs[t + 1], snake.grid) <==> status.GameOver? && t == played - 1)
    ensures score == |snake.segments| - old(|snake.segments|)
    ensures status.GameOver? ==> 1 <= played && status.score == score
    ensures status.GameOver? ==> Collides(snake.segments, snake.grid)
    ensures status == Continue ==> played == |frames| && Playing(snake)
  {
    score := 0;
    status := Continue;
    var t := 0;
    played, bodies, dirs := 0, [snake.segments], [snake.direction];
    while t < |frames|
      invariant 0 <= t <= |frames|
      invariant played == t && |bodies| == t + 1 && |dirs| == t + 1
      invariant bodies[0] == old(snake.segments) && dirs[0] == old(snake.direction)
      invariant bodies[t] == snake.segments && dirs[t] == snake.direction
      invariant forall u :: 0 <= u < t ==>
        dirs[u + 1] == SteerAll(dirs[u], frames[u]) &&
        FrameStep(bodies[u], dirs[u + 1], snake.grid, bodies[u + 1]) &&
        !Crashes(bodies[u], dirs[u + 1], snake.grid)
      invariant Playing(snake)
      invariant status == Continue
      invariant score == |snake.segments| - old(|snake.segments|)
    {
      HandleKeys(snake, frames[t]);
      ghost var before := snake.segments;
      status, score := Tick(snake, food, score);
      assert FrameStep(before, snake.direction, snake.grid, snake.segments);
      assert Crashes(before, snake.direction, snake.grid) <==> status.GameOver?;
      ghost var dirs', bodies' := dirs + [snake.direction], bodies + [snake.segments];
      forall u | 0 <= u < t
        ensures dirs'[u + 1] == SteerAll(dirs'[u], frames[u])
        ensures FrameStep(bodies'[u], dirs'[u + 1], snake.grid, bodies'[u + 1])
        ensures !Crashes(bodies'[u], dirs'[u + 1], snake.grid)
      {
        assert dirs'[u] == dirs[u] && dirs'[u + 1] == dirs[u + 1];
        assert bodies'[u] == bodies[u] && bodies'[u + 1] == bodies[u + 1];
      }
      dirs, bodies := dirs', bodies';
      played := t + 1;
      if status.GameOver? {
        return;
      }
      t := t + 1;
    }
  }

  /** The start of `main`: a 32 x 24 grid of 20-pixel cells, a three-segment snake heading
      right whose head is on cell (15, 12), food on a random cell, and a zero score. */
  method Start() returns (snake: Snake, food: Food, score: nat)
    ensures fresh(snake) && fresh(food)
    ensures snake.grid == food.grid == Grid(32, 24, 20)
    ensures snake.segments == StartBody()
    ensures snake.direction == Right && Playing(snake)
    ensures OnAxis(food.x, 32, 20) && OnAxis(food.y, 24, 20)
    ensures score == 0
  {
    var grid := Grid(Cols, Rows, CellSize);
    snake := new Snake(grid, Right, InitialSize);
    InitialHeadOnGrid(grid, InitialSize);
    food := new Food(grid);
    food.SetRandomLocation();
    score := 0;
  }

  /** The first move from the start: the head goes from cell (15, 12) to cell (16, 12) and the
      snake keeps its three segments. */
  lemma FirstMoveScenario()
    ensures Advanced(StartBody(), Right, CellSize)
         == [Pos(320, 240), Pos(300, 240), Pos(280, 240)]
  {
  }
}

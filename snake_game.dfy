/**
 * The gameplay state machine of a Snake game played on a fixed maze
 * (snake/src/SnakeGame.java). Positions are pixel coordinates; one grid
 * cell is UNIT_SIZE pixels wide. The window, painting, the timer and the
 * game-over dialog are not part of this model.
 */
module Snake {

  datatype Option<T> = None | Some(value: T)

  const WIDTH: int := 1920
  const HEIGHT: int := 1080
  const UNIT_SIZE: int := 69

  /** The bounds handed to random.nextInt when a fruit cell is sampled. */
  const SAMPLE_COLUMNS: int := WIDTH / UNIT_SIZE
  const SAMPLE_ROWS: int := HEIGHT / UNIT_SIZE

  /** A pixel position, as java.awt.Point. */
  datatype Point = Point(x: int, y: int)

  /** The snake's heading; the source keeps it as one of the chars 'U', 'D', 'L', 'R'. */
  datatype Direction = Up | Down | Left | Right

  /** A key event: the four arrow keys, and every other key. */
  datatype Key = UpArrow | DownArrow | LeftArrow | RightArrow | OtherKey

  /** Where the snake starts, and restarts, as a single segment. */
  const START: Point := Point(UNIT_SIZE, UNIT_SIZE)

  /** The maze, indexed [row][column]: 1 is a wall, 0 is open. */
  const MAZE: seq<seq<int>> := [
    [1, 1, 1, 1, 1, 1, 1, 1, 1, 1],
    [1, 0, 0, 0, 0, 0, 0, 0, 0, 1],
    [1, 0, 1, 1, 1, 1, 1, 1, 0, 1],
    [1, 0, 1, 0, 0, 0, 0, 1, 0, 1],
    [1, 0, 1, 0, 1, 1, 0, 1, 0, 1],
    [1, 0, 0, 0, 1, 0, 0, 0, 0, 1],
    [1, 0, 1, 0, 0, 0, 1, 0, 0, 1],
    [1, 0, 1, 1, 1, 1, 1, 1, 0, 1],
    [1, 0, 0, 0, 0, 0, 0, 0, 0, 1],
    [1, 1, 0, 1, 1, 0, 1, 1, 1, 1],
    [1, 0, 0, 0, 0, 0, 0, 0, 0, 1],
    [1, 1, 1, 1, 1, 1, 1, 1, 1, 1]
  ]

  // ---------------------------------------------------------------------
  // Directions and keys
  // ---------------------------------------------------------------------

  /** The reverse heading. */
  function Opposite(d: Direction): (r: Direction)
    ensures r != d
    ensures (d == Up || d == Down) <==> (r == Up || r == Down)
  {
    match d
    case Up => Down
    case Down => Up
    case Left => Right
    case Right => Left
  }

  lemma OppositeIsInvolution(d: Direction)
    ensures Opposite(Opposite(d)) == d
  {
  }

  /** The heading an arrow key asks for; other keys ask for none. */
  function Arrow(k: Key): Option<Direction> {
    match k
    case UpArrow => Some(Up)
    case DownArrow => Some(Down)
    case LeftArrow => Some(Left)
    case RightArrow => Some(Right)
    case OtherKey => None
  }

  /** The arrow key that asks for heading d. */
  function KeyFor(d: Direction): (k: Key)
    ensures Arrow(k) == Some(d)
  {
    match d
    case Up => UpArrow
    case Down => DownArrow
    case Left => LeftArrow
    case Right => RightArrow
  }

  /** A heading at a right angle to d. */
  function Perpendicular(d: Direction): (r: Direction)
    ensures r != d && r != Opposite(d)
  {
    match d
    case Up => Left
    case Down => Left
    case Left => Up
    case Right => Up
  }

  /**
   * The heading after one key event, decided as keyPressed decides it: an
   * arrow is refused when it is the reverse of the heading set last.
   */
  function Turn(d: Direction, k: Key): (r: Direction)
    ensures r != Opposite(d)
    ensures Arrow(k).Some? && Arrow(k).value != Opposite(d) ==> r == Arrow(k).value
    ensures Arrow(k).None? || Arrow(k).value == Opposite(d) ==> r == d
  {
    match k
    case UpArrow => if d != Down then Up else d
    case DownArrow => if d != Up then Down else d
    case LeftArrow => if d != Right then Left else d
    case RightArrow => if d != Left then Right else d
    case OtherKey => d
  }

  /** The heading after a run of key events with no tick between them. */
  function TurnAll(d: Direction, keys: seq<Key>): Direction
    decreases |keys|
  {
    if keys == [] then d else TurnAll(Turn(d, keys[0]), keys[1..])
  }

  /**
   * The refusal is per key event: two arrows pressed within one tick, first
   * a perpendicular one and then the reverse, turn any heading into its
   * reverse.
   */
  lemma TwoKeysReverse(d: Direction)
    ensures TurnAll(d, [KeyFor(Perpendicular(d)), KeyFor(Opposite(d))]) == Opposite(d)
  {
    var keys := [KeyFor(Perpendicular(d)), KeyFor(Opposite(d))];
    var rest := [KeyFor(Opposite(d))];
    assert keys[1..] == rest && rest[1..] == [];
    assert Turn(d, keys[0]) == Perpendicular(d);
    assert Turn(Perpendicular(d), rest[0]) == Opposite(d);
    assert TurnAll(d, keys) == TurnAll(Perpendicular(d), rest);
  }

  /**
   * The turn checked against the heading the snake last moved in, rather
   * than against the heading set by the previous key event.
   */
  function GuardedTurn(motion: Direction, d: Direction, k: Key): (r: Direction)
    ensures Arrow(k).Some? && Arrow(k).value != Opposite(motion) ==> r == Arrow(k).value
    ensures Arrow(k).None? || Arrow(k).value == Opposite(motion) ==> r == d
  {
    match k
    case UpArrow => if motion != Down then Up else d
    case DownArrow => if motion != Up then Down else d
    case LeftArrow => if motion != Right then Left else d
    case RightArrow => if motion != Left then Right else d
    case OtherKey => d
  }

  function GuardedTurnAll(motion: Direction, d: Direction, keys: seq<Key>): Direction
    decreases |keys|
  {
    if keys == [] then d else GuardedTurnAll(motion, GuardedTurn(motion, d, keys[0]), keys[1..])
  }

  /** With the guarded turn, no run of key events between two ticks reverses the motion. */
  lemma {:induction false} GuardedTurnsNeverReverse(motion: Direction, d: Direction, keys: seq<Key>)
    requires d != Opposite(motion)
    ensures GuardedTurnAll(motion, d, keys) != Opposite(motion)
    decreases |keys|
  {
    if keys != [] {
      GuardedTurnsNeverReverse(motion, GuardedTurn(motion, d, keys[0]), keys[1..]);
    }
  }

  /** For the first key event after a tick the guarded turn and keyPressed's turn agree. */
  lemma GuardedTurnAgreesOnFirstKey(d: Direction, k: Key)
    ensures GuardedTurn(d, d, k) == Turn(d, k)
  {
  }

  // ---------------------------------------------------------------------
  // Grid arithmetic
  // ---------------------------------------------------------------------

  /** Java's `a / UNIT_SIZE`, which truncates toward zero. */
  function CellIndex(a: int): (q: int)
    ensures 0 <= a ==> 0 <= q && q * UNIT_SIZE <= a < q * UNIT_SIZE + UNIT_SIZE
    ensures a < 0 ==> q <= 0 && q * UNIT_SIZE - UNIT_SIZE < a <= q * UNIT_SIZE
  {
    if 0 <= a then a / UNIT_SIZE else -((-a) / UNIT_SIZE)
  }

  /** Both coordinates are multiples of UNIT_SIZE. */
  predicate OnGrid(p: Point) {
    p.x % UNIT_SIZE == 0 && p.y % UNIT_SIZE == 0
  }

  /** The position one cell away in direction d (the switch in move). */
  function Step(p: Point, d: Direction): Point {
    match d
    case Up => Point(p.x, p.y - UNIT_SIZE)
    case Down => Point(p.x, p.y + UNIT_SIZE)
    case Left => Point(p.x - UNIT_SIZE, p.y)
    case Right => Point(p.x + UNIT_SIZE, p.y)
  }

  lemma StepKeepsGrid(p: Point, d: Direction)
    requires OnGrid(p)
    ensures OnGrid(Step(p, d))
  {
  }

  lemma StepThenReverse(p: Point, d: Direction)
    ensures Step(Step(p, d), Opposite(d)) == p
    ensures Step(p, d) != p
  {
  }

  // ---------------------------------------------------------------------
  // The maze
  // ---------------------------------------------------------------------

  /** Indexing the maze at p's cell stays inside the array. */
  predicate InMaze(p: Point) {
    0 <= CellIndex(p.y) < |MAZE| && 0 <= CellIndex(p.x) < |MAZE[CellIndex(p.y)]|
  }

  function MazeAt(p: Point): int
    requires InMaze(p)
  {
    MAZE[CellIndex(p.y)][CellIndex(p.x)]
  }

  predicate IsOpen(p: Point) {
    InMaze(p) && MazeAt(p) == 0
  }

  /** The maze is 12 rows of 10 cells of 0 or 1, ringed by walls, and the start cell is open. */
  lemma MazeShape()
    ensures |MAZE| == 12
    ensures forall r :: 0 <= r < |MAZE| ==> |MAZE[r]| == 10
    ensures forall r, c :: 0 <= r < 12 && 0 <= c < 10 ==> MAZE[r][c] == 0 || MAZE[r][c] == 1
    ensures forall c :: 0 <= c < 10 ==> MAZE[0][c] == 1 && MAZE[11][c] == 1
    ensures forall r :: 0 <= r < 12 ==> MAZE[r][0] == 1 && MAZE[r][9] == 1
    ensures MAZE[1][1] == 0
  {
  }

  lemma StartIsOpen()
    ensures OnGrid(START) && IsOpen(START)
  {
  }

  lemma MazeCellIsBinary(p: Point)
    requires InMaze(p)
    ensures MazeAt(p) == 0 || MazeAt(p) == 1
  {
    MazeShape();
  }

  /** Open cells lie strictly inside the wall ring. */
  lemma OpenCellIsInterior(p: Point)
    requires IsOpen(p)
    ensures 1 <= CellIndex(p.y) <= 10 && 1 <= CellIndex(p.x) <= 8
  {
    MazeShape();
  }

  /**
   * One step from an open grid cell lands on the grid, inside the maze
   * array and inside the window; so moving from an open cell never makes
   * the maze lookup of checkCollision go out of range.
   */
  lemma StepFromOpenCell(p: Point, d: Direction)
    requires OnGrid(p) && IsOpen(p)
    ensures OnGrid(Step(p, d)) && InMaze(Step(p, d))
    ensures !OutOfBounds(Step(p, d))
  {
    OpenCellIsInterior(p);
    MazeShape();
    var q := Step(p, d);
    assert p.x == CellIndex(p.x) * UNIT_SIZE && p.y == CellIndex(p.y) * UNIT_SIZE;
    assert 0 <= CellIndex(q.y) <= 11 && 0 <= CellIndex(q.x) <= 9;
  }

  // ---------------------------------------------------------------------
  // Moving and colliding
  // ---------------------------------------------------------------------

  /** The snake after move: a new head one step ahead, the tail dropped. */
  function Advance(s: seq<Point>, d: Direction): (r: seq<Point>)
    requires |s| > 0
    ensures |r| == |s|
    ensures r[0] == Step(s[0], d)
    ensures forall i :: 1 <= i < |r| ==> r[i] == s[i - 1]
  {
    [Step(s[0], d)] + s[..|s| - 1]
  }

  /**
   * Reversing the motion of a snake of three or more segments puts the
   * head on its own body. keyPressed refuses a reversal only against the
   * heading set last, so two key events within one tick still lead here
   * (TwoKeysReverse).
   */
  lemma ReversalHitsBody(s: seq<Point>, d: Direction)
    requires |s| >= 3 && s[0] == Step(s[1], d)
    ensures HitsBody(Advance(s, Opposite(d)))
  {
    StepThenReverse(s[1], d);
    var r := Advance(s, Opposite(d));
    assert r[2] == s[1] == r[0];
  }

  /** Outside the window in pixels. */
  predicate OutOfBounds(p: Point) {
    p.x < 0 || p.x >= WIDTH || p.y < 0 || p.y >= HEIGHT
  }

  /** The head equals some later segment. */
  predicate HitsBody(s: seq<Point>)
    requires |s| > 0
  {
    exists i :: 1 <= i < |s| && s[i] == s[0]
  }

  predicate HitsWall(p: Point) {
    InMaze(p) && MazeAt(p) == 1
  }

  /** Any of the three conditions checkCollision tests on the head. */
  predicate Collides(s: seq<Point>)
    requires |s| > 0
  {
    OutOfBounds(s[0]) || HitsBody(s) || HitsWall(s[0])
  }

  /** The for loop of checkCollision: does the head equal a segment at index 1 or later? */
  method ScanBody(snake: seq<Point>) returns (hit: bool)
    requires |snake| > 0
    ensures hit <==> HitsBody(snake)
  {
    var head := snake[0];
    var i := 1;
    while i < |snake|
      invariant 1 <= i <= |snake|
      invariant forall j :: 1 <= j < i ==> snake[j] != head
    {
      if head == snake[i] {
        return true;
      }
      i := i + 1;
    }
    return false;
  }

  // ---------------------------------------------------------------------
  // Fruit placement
  // ---------------------------------------------------------------------

  /** The exit condition of placeFruit's sampling loop: the negation of its while guard. */
  predicate FruitAccepted(x: int, y: int)
    requires 0 <= x && 0 <= y
  {
    !(x >= WIDTH || y >= HEIGHT || x / UNIT_SIZE >= |MAZE[0]| || y / UNIT_SIZE >= |MAZE|
      || MAZE[y / UNIT_SIZE][x / UNIT_SIZE] == 1)
  }

  /** A fruit position as promised after placement. */
  predicate ValidFruit(p: Point) {
    0 <= p.x && 0 <= p.y && p.x % UNIT_SIZE == 0 && p.y % UNIT_SIZE == 0
    && p.x / UNIT_SIZE < |MAZE[0]| && p.y / UNIT_SIZE < |MAZE|
    && MAZE[p.y / UNIT_SIZE][p.x / UNIT_SIZE] == 0
  }

  /** A sample the loop accepts is exactly a valid fruit position. */
  lemma AcceptedSampleIsValid(kx: int, ky: int)
    requires 0 <= kx < SAMPLE_COLUMNS && 0 <= ky < SAMPLE_ROWS
    ensures FruitAccepted(kx * UNIT_SIZE, ky * UNIT_SIZE) <==> ValidFruit(Point(kx * UNIT_SIZE, ky * UNIT_SIZE))
  {
    MazeShape();
    assert (kx * UNIT_SIZE) / UNIT_SIZE == kx && (ky * UNIT_SIZE) / UNIT_SIZE == ky;
  }

  /** Every valid fruit position can be drawn by the sampler and is accepted. */
  lemma ValidFruitIsSampled(p: Point)
    requires ValidFruit(p)
    ensures 0 <= p.x / UNIT_SIZE < SAMPLE_COLUMNS && 0 <= p.y / UNIT_SIZE < SAMPLE_ROWS
    ensures p == Point((p.x / UNIT_SIZE) * UNIT_SIZE, (p.y / UNIT_SIZE) * UNIT_SIZE)
    ensures FruitAccepted(p.x, p.y)
  {
    MazeShape();
  }

  /** A valid fruit sits on an open grid cell, as the collision check sees cells. */
  lemma ValidFruitIsOpen(p: Point)
    requires ValidFruit(p)
    ensures OnGrid(p) && IsOpen(p)
  {
    MazeShape();
  }

  // ---------------------------------------------------------------------
  // The game
  // ---------------------------------------------------------------------

  class SnakeGame {
    /** Segments, head first. */
    var snake: seq<Point>
    var fruit: Point
    var direction: Direction
    var running: bool
    var score: int

    /**
     * What holds between ticks: a non-empty snake whose segments all lie
     * on open grid cells, a validly placed fruit, a non-negative score.
     */
    ghost predicate Valid()
      reads this
    {
      |snake| > 0 && 0 <= score && ValidFruit(fruit)
      && forall i :: 0 <= i < |snake| ==> OnGrid(snake[i]) && IsOpen(snake[i])
    }

    constructor ()
      ensures Valid()
      ensures snake == [START] && direction == Right && running && score == 0
    {
      snake := [];
      fruit := START;  // only a placeholder: startGame places the first fruit
      direction := Right;
      running := true;
      score := 0;
      new;
      StartGame();
      StartIsOpen();
    }

    /** The reset part of startGame: a one-segment snake at START and a new fruit. */
    method StartGame()
      modifies this
      ensures snake == [START] && ValidFruit(fruit)
      ensures direction == old(direction) && running == old(running) && score == old(score)
    {
      snake := [];
      snake := snake + [START];
      PlaceFruit();
    }

    /** Rejection sampling until the cell is inside the maze and open. */
    method PlaceFruit()
      modifies this`fruit
      ensures ValidFruit(fruit)
    {
      assert 0 <= 1 < SAMPLE_COLUMNS && 0 <= 1 < SAMPLE_ROWS && FruitAccepted(1 * UNIT_SIZE, 1 * UNIT_SIZE);
      var kx: int, ky: int :| 0 <= kx < SAMPLE_COLUMNS && 0 <= ky < SAMPLE_ROWS
                             && FruitAccepted(kx * UNIT_SIZE, ky * UNIT_SIZE);
      AcceptedSampleIsValid(kx, ky);
      fruit := Point(kx * UNIT_SIZE, ky * UNIT_SIZE);
    }

    method Move()
      requires |snake| > 0
      modifies this`snake
      ensures snake == Advance(old(snake), direction)
    {
      var head := snake[0];
      var newHead := head;
      match direction {
        case Up => newHead := newHead.(y := newHead.y - UNIT_SIZE);
        case Down => newHead := newHead.(y := newHead.y + UNIT_SIZE);
        case Left => newHead := newHead.(x := newHead.x - UNIT_SIZE);
        case Right => newHead := newHead.(x := newHead.x + UNIT_SIZE);
      }
      snake := [newHead] + snake;
      snake := snake[..|snake| - 1];
    }

    /**
     * The three checks in turn. A check that fires calls gameOver and the
     * later checks still run, against the reset snake but with the head
     * read before the reset.
     */
    method CheckCollision()
      requires |snake| > 0 && InMaze(snake[0])
      modifies this
      ensures Collides(old(snake)) ==> !running && snake == [START] && ValidFruit(fruit)
      ensures !Collides(old(snake)) ==>
                snake == old(snake) && fruit == old(fruit) && running == old(running)
      ensures score == old(score) && direction == old(direction)
    {
      var head := snake[0];
      if head.x < 0 || head.x >= WIDTH || head.y < 0 || head.y >= HEIGHT {
        GameOver();
      }
      var hit := ScanBody(snake);
      if hit {
        GameOver();
      }
      if MazeAt(head) == 1 {
        GameOver();
      }
    }

    /** Eating: one more point, a duplicate of the tail appended, a new fruit. */
    method CheckFruit()
      requires |snake| > 0
      modifies this
      ensures old(snake[0] == fruit) ==>
                score == old(score) + 1 && snake == old(snake) + [old(snake[|snake| - 1])]
                && ValidFruit(fruit)
      ensures old(snake[0] != fruit) ==>
                score == old(score) && snake == old(snake) && fruit == old(fruit)
      ensures running == old(running) && direction == old(direction)
    {
      var head := snake[0];
      if head == fruit {
        score := score + 1;
        snake := snake + [snake[|snake| - 1]];
        PlaceFruit();
      }
    }

    /** Stops the game for good (nothing sets running back) and resets snake and fruit. */
    method GameOver()
      modifies this
      ensures !running && snake == [START] && ValidFruit(fruit)
      ensures score == old(score) && direction == old(direction)
    {
      running := false;
      StartGame();
    }

    /**
     * Arrow keys set the heading, except to the reverse of the heading set
     * last (which need not be the heading of the last move).
     */
    method KeyPressed(k: Key)
      modifies this`direction
      ensures direction == Turn(old(direction), k)
      ensures direction != Opposite(old(direction))
      ensures Arrow(k).Some? && Arrow(k).value != Opposite(old(direction)) ==>
                direction == Arrow(k).value
      ensures Arrow(k).None? || Arrow(k).value == Opposite(old(direction)) ==>
                direction == old(direction)
    {
      match k
      case UpArrow => if direction != Down { direction := Up; }
      case DownArrow => if direction != Up { direction := Down; }
      case LeftArrow => if direction != Right { direction := Left; }
      case RightArrow => if direction != Left { direction := Right; }
      case OtherKey =>
    }

    /** One timer tick: move, check collisions, check the fruit, while running. */
    method Tick()
      requires Valid()
      modifies this
      ensures Valid()
      ensures direction == old(direction)
      ensures !old(running) ==>
                snake == old(snake) && fruit == old(fruit) && score == old(score) && !running
      ensures old(running) && !Collides(Advance(old(snake), old(direction))) ==>
                var moved := Advance(old(snake), old(direction));
                running
                && (moved[0] == old(fruit) ==>
                      snake == moved + [moved[|moved| - 1]] && score == old(score) + 1)
                && (moved[0] != old(fruit) ==>
                      snake == moved && score == old(score) && fruit == old(fruit))
      ensures old(running) && Collides(Advance(old(snake), old(direction))) ==>
                !running
                && ((snake == [START] && score == old(score))
                    || (snake == [START, START] && score == old(score) + 1))
    {
      if running {
        ghost var moved := Advance(snake, direction);
        StepFromOpenCell(snake[0], direction);
        Move();
        CheckCollision();
        if Collides(moved) {
          StartIsOpen();
        } else {
          MazeCellIsBinary(moved[0]);
        }
        CheckFruit();
      }
    }
  }

  /**
   * The first tick of a new game: heading right from START onto a fruit
   * placed one cell to the right grows the snake to two segments, both on
   * the fruit's cell, because the tail is duplicated after the move.
   */
  method FirstFruitScenario()
  {
    var game := new SnakeGame();
    game.fruit := Point(2 * UNIT_SIZE, UNIT_SIZE);
    game.Tick();
    assert game.snake == [Point(2 * UNIT_SIZE, UNIT_SIZE), Point(2 * UNIT_SIZE, UNIT_SIZE)];
    assert game.score == 1 && game.running;
  }

  /**
   * Two arrow keys within one tick reverse a snake of three segments moving
   * right, and the next tick ends the game on its own body.
   */
  method TwoKeysReverseScenario()
  {
    var game := new SnakeGame();
    game.snake := [Point(4 * UNIT_SIZE, UNIT_SIZE), Point(3 * UNIT_SIZE, UNIT_SIZE), Point(2 * UNIT_SIZE, UNIT_SIZE)];
    game.fruit := Point(8 * UNIT_SIZE, UNIT_SIZE);
    game.KeyPressed(UpArrow);
    game.KeyPressed(LeftArrow);
    assert game.direction == Opposite(Right);
    ghost var moved := Advance(game.snake, game.direction);
    assert moved[2] == moved[0];
    game.Tick();
    assert !game.running;
  }
}

# Snake game on a fixed maze: a Dafny model of its gameplay core

The model covers the gameplay state machine of `SnakeGame`
(`snake/src/SnakeGame.java`), a single-player Snake game. It has:

- a snake: a list of pixel points, head first;
- a fruit;
- a heading;
- a `running` flag;
- a score;
- a fixed 12 × 10 maze of walls (1) and open cells (0).

One grid cell is `UNIT_SIZE` = 69 pixels, and the window is 1920 × 1080 pixels.
Every timer tick moves the snake one cell, checks for collisions, and checks
whether the head is on the fruit, but only while `running` is true. Arrow keys
change the heading, but never to the reverse of the heading set last.

Everything is in `snake_game.dfy`, module `Snake`:

- Pure definitions: headings (`Opposite`, `Arrow`, `Turn`), grid arithmetic
  (`CellIndex` is Java's truncating `/ UNIT_SIZE`, `OnGrid`, `Step`), the maze
  (`MAZE`, `InMaze`, `MazeAt`, `IsOpen`), the collision condition
  (`OutOfBounds`, `HitsBody`, `HitsWall`, `Collides`) and the fruit-acceptance
  condition (`FruitAccepted`, `ValidFruit`), with lemmas about them.
- Class `SnakeGame`: the mutable game. Its fields are the Java fields `snake`,
  `fruit`, `direction`, `running` and `score`. The `final` maze array, which
  nothing writes, is the module constant `MAZE`. Each Java method becomes a
  method with a `modifies` clause that states the whole new state. `Valid()`
  is the invariant that holds between ticks: every segment sits on an open grid
  cell, the fruit is validly placed and the score is non-negative. `Tick`
  preserves it.
- `PlaceFruit` replaces the random do-while loop with a nondeterministic
  choice of a sample `(kx, ky)` from the same ranges `nextInt` draws from
  (27 columns, 15 rows) that satisfies the loop's exit condition.
- `ScanBody` is the `for` loop of `checkCollision`. `CheckCollision` calls
  `gameOver` once if the loop finds a hit. This is the same as calling it inside
  the loop, because the loop breaks right after that call.

What `SnakeGame.java` does, as the model states it:

- Nothing sets `running` back to true after `gameOver`. After the first loss
  every later tick changes nothing, so the game freezes.
- `startGame` does not reset `score` or `direction`; it resets only the snake
  and the fruit.
- When a check in `checkCollision` fires, the later checks still run. They use
  the head read before the reset, against the reset snake. `checkFruit` then
  runs in the same tick on the reset snake. So a tick that ends the game can
  still score, if the new fruit lands on the start cell (`Tick`'s last `ensures`).
- A one-segment snake that eats becomes `[(138,69),(138,69)]`, because
  `checkFruit` copies the tail after the move (`FirstFruitScenario`).
- The fruit may lie on the snake. `nextInt` draws cells from a 27 × 15 range,
  but the loop never accepts one outside the 12 × 10 maze.
- In reachable states the pixel-bounds check never fires, because the wall
  ring stops the snake first (`StepFromOpenCell`).
- `keyPressed` refuses a reversal per key event, against the heading set last,
  not against the heading the snake last moved in. Two arrows pressed within
  one tick can therefore reverse the motion (see "## Findings").

## Model

| member | source | states |
|---|---|---|
| `Snake.Opposite` | snake/src/SnakeGame.java:184-198 | the reversal pairs U/D and L/R: the reverse of a heading is a different heading on the same axis |
| `Snake.OppositeIsInvolution` | snake/src/SnakeGame.java:184-198 | reversing twice gives the original heading |
| `Snake.KeyFor` | snake/src/SnakeGame.java:186-196 | the arrow key that asks for a heading is the one `Arrow` maps to it |
| `Snake.Perpendicular` | snake/src/SnakeGame.java:184-198 | a heading at a right angle: neither the heading nor its reverse |
| `Snake.Turn` | snake/src/SnakeGame.java:184-198 | one key event: the result is never the reverse of the current heading; a non-reversing arrow gives its heading; a reversing arrow or another key keeps the heading |
| `Snake.TwoKeysReverse` | snake/src/SnakeGame.java:184-198 | for every heading, a perpendicular arrow followed by the reverse arrow, with no tick between, turns the heading into its reverse |
| `Snake.GuardedTurn` | snake/src/SnakeGame.java:184-198 | the corrected turn: an arrow is refused when it reverses the heading of the last move; otherwise it sets the heading |
| `Snake.GuardedTurnsNeverReverse` | snake/src/SnakeGame.java:184-198 | with the corrected turn, no run of key events between two ticks makes the heading the reverse of the last move |
| `Snake.GuardedTurnAgreesOnFirstKey` | snake/src/SnakeGame.java:184-198 | for the first key event after a move, the corrected turn and keyPressed's turn give the same heading |
| `Snake.CellIndex` | snake/src/SnakeGame.java:114 | Java's `a / UNIT_SIZE`: the quotient truncated toward zero, so for negative `a` it is rounded up, not down |
| `Snake.StepKeepsGrid` | snake/src/SnakeGame.java:81-94 | a ±UNIT_SIZE step keeps both coordinates multiples of UNIT_SIZE |
| `Snake.StepThenReverse` | snake/src/SnakeGame.java:81-94 | a step always changes the position, and the reverse step undoes it |
| `Snake.MazeShape` | snake/src/SnakeGame.java:38-51 | the maze has 12 rows of 10 cells, each 0 or 1; rows 0 and 11 and columns 0 and 9 are all walls; cell [1][1] is open |
| `Snake.StartIsOpen` | snake/src/SnakeGame.java:60 | the start point (UNIT_SIZE, UNIT_SIZE) is on the grid and on an open maze cell |
| `Snake.MazeCellIsBinary` | snake/src/SnakeGame.java:37-51 | every cell the collision check can index is 0 or 1, so "not a wall" means open |
| `Snake.OpenCellIsInterior` | snake/src/SnakeGame.java:38-51 | an open cell's row is in 1..10 and its column in 1..8 |
| `Snake.StepFromOpenCell` | snake/src/SnakeGame.java:114 | one step from an open grid cell stays on the grid, gives in-range indices for the maze lookup, and stays inside the 1920×1080 window |
| `Snake.Advance` | snake/src/SnakeGame.java:77-98 | move keeps the length; the new head is the old head one step in the heading; each segment i ≥ 1 is the old segment i−1 |
| `Snake.ReversalHitsBody` | snake/src/SnakeGame.java:184-198 | moving a snake of three or more segments against its direction of motion puts the head on its own body; keyPressed's per-event refusal does not rule this motion out (`TwoKeysReverse`) |
| `Snake.ScanBody` | snake/src/SnakeGame.java:107-112 | the loop reports a hit exactly when the head equals some segment at index 1 or more |
| `Snake.AcceptedSampleIsValid` | snake/src/SnakeGame.java:133-136 | for every sample in nextInt's ranges, the loop accepts it if and only if it is a valid fruit cell: non-negative multiples of UNIT_SIZE, column < 10, row < 12, maze cell 0 |
| `Snake.ValidFruitIsSampled` | snake/src/SnakeGame.java:133-136 | every valid fruit cell can be drawn by the sampler and is accepted |
| `Snake.ValidFruitIsOpen` | snake/src/SnakeGame.java:134-136 | a valid fruit lies on a grid cell that the collision check sees as open |
| `Snake.SnakeGame.constructor` | snake/src/SnakeGame.java:32-53 | a new game has heading Right, running true, score 0, the snake `[START]` and a valid fruit |
| `Snake.SnakeGame.StartGame` | snake/src/SnakeGame.java:58-61 | the snake becomes exactly `[START]` and a valid fruit is placed; score, heading and running are unchanged |
| `Snake.SnakeGame.PlaceFruit` | snake/src/SnakeGame.java:129-139 | the placed fruit is valid: on the grid, inside the maze and on an open cell (it may lie on the snake) |
| `Snake.SnakeGame.Move` | snake/src/SnakeGame.java:77-98 | the snake becomes `Advance` of the old snake in the current heading; nothing else changes |
| `Snake.SnakeGame.CheckCollision` | snake/src/SnakeGame.java:100-117 | if the head is out of the window, hits a later segment or is on a wall, the game stops and the snake is reset to `[START]` with a valid fruit; otherwise nothing changes; score and heading never change |
| `Snake.SnakeGame.CheckFruit` | snake/src/SnakeGame.java:119-127 | head on the fruit: score +1, old segments kept, a copy of the last segment appended, a valid fruit placed; otherwise nothing changes |
| `Snake.SnakeGame.GameOver` | snake/src/SnakeGame.java:141-145 | running becomes false, the snake becomes `[START]`, a valid fruit is placed; score and heading are unchanged |
| `Snake.SnakeGame.KeyPressed` | snake/src/SnakeGame.java:184-198 | the heading becomes `Turn` of the old heading and the key: never the reverse of the old heading; a non-reversing arrow sets it; a reversing arrow or any other key leaves it unchanged |
| `Snake.SnakeGame.Tick` | snake/src/SnakeGame.java:66-70 | the invariant is kept. When not running, nothing changes. Otherwise, with no collision: the snake advances and grows by one with score +1 on the fruit, else advances with score and fruit unchanged. With a collision: the game stops, and the snake is `[START]` with the score unchanged, or `[START, START]` with score +1 when the new fruit landed on the start cell |

## Findings

| source | as written | input that shows it | evidently intended | confidence | as-written member | corrected member |
|---|---|---|---|---|---|---|
| snake/src/SnakeGame.java:184-198 | each arrow is refused only when it reverses the heading set by the previous key event | heading Right, snake `[(276,69),(207,69),(138,69)]`; Up then Left before the next tick gives heading Left, and the tick puts the head on its body | an arrow is refused when it reverses the direction the snake last moved in | high (not executed) | `Snake.TwoKeysReverse` (also `TwoKeysReverseScenario`) | `Snake.GuardedTurnsNeverReverse` |

The class keeps keyPressed's rule as written, because the model follows the
code. `GuardedTurn` is the corrected rule, with its property proved beside it.
`GuardedTurnAgreesOnFirstKey` shows when the two rules agree: for the first
key event after each tick.

## Left out

- Window setup, `paint`, the colours and the score text (`SnakeGame.java:25-30`, `:147-177`): rendering only.
- The `javax.swing.Timer` and its 500 ms delay (`:63-74`): one tick is one call of `Tick`. Every `startGame` starts one more timer, but after a loss every timer sees `running` false, so the extra timers change no state.
- `JOptionPane.showMessageDialog` in `gameOver` (`:143`): a blocking UI call. Only its state effects are modelled, so the model does not record how many dialogs one tick shows.
- `java.util.Random` and the termination of the sampling loop (`:130-136`): the loop ends only with probability 1. It is replaced by a choice of an accepted sample.
- Snake.SnakeGame.PlaceFruit: states only that the chosen cell is valid, not that it is uniformly distributed over the open cells.
- The `ArrayIndexOutOfBoundsException` of the maze lookup (`:114`): `CheckCollision` requires the head's cell to be inside the maze array, and `StepFromOpenCell` shows that this always holds when a tick starts from a valid state.
- Key codes, `keyTyped`, `keyReleased`, `main` and the unused `GAME_UNITS`: keys are the `Key` datatype, and the `char` heading is the `Direction` datatype, because the field only ever holds 'U', 'D', 'L' or 'R'.
- The `null` fruit before the first `startGame`: the constructor stores a placeholder that `StartGame` overwrites at once.
- 32-bit `int` arithmetic: coordinates stay far from overflow in every valid state. The score is an unbounded integer; Java's would wrap only after 2^31 − 1 fruits.

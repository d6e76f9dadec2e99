# Snake game engine — a Dafny model

This project models the game logic of a small raylib snake game (`main.c`).

The snake is a head-first list of 10x10 cells on the field [10, 780] x [10, 540]. A separate head rectangle is tracked beside the list. Every frame runs one of three frame functions, chosen by the game state (running, paused, game over):

- While running, a frame turns the snake by the W/A/S/D keys and never accepts a reversal. It moves the snake one cell, then eats the apple if the head is on it. Eating grows the snake by one segment, adds 10 to the score, and places a new apple on the first free cell of a row-by-row scan from a random cell. The frame then ends the game on self-collision or border contact. Last, P pauses.
- While paused, P resumes.
- The game-over screen rebuilds the three-segment snake on every frame. A click on the restart button clears the score, resumes and heads up.

The model has four modules, one file each:

- `Geometry` (`geometry.dfy`): positions, headings, one-cell steps, raylib's rectangle overlap on the grid, the border test and the rounding of random draws.
- `SnakeBody` (`snake_body.dfy`): the body as a sequence of cells, and the list walks `isSnakeHere` and `areBlocksColliding` as loop methods. It also holds the move, `eatFood`, and lemmas that both keep neighbouring segments adjacent.
- `Food` (`food.dfy`): `MoveToEmptySpace` as a loop method, proved to stop at the first free cell of the scan whenever the scan meets one. It includes the termination argument, a proof that the scan reaches every cell of the region, the scan's cycle through the 77 x 53 cells of x in [10, 770] and y in [10, 530], and the counting lemma showing that a snake shorter than that region always leaves a free cell.
- `SnakeGame` (`snake_game.dfy`): the direction rule, and the class `Game`. `Game` holds the source's globals as fields, with one method per frame function, the frame dispatch of the main loop and `main`'s setup. `Game.Valid()` is the invariant every frame keeps:
  - there are at least three segments;
  - the head rectangle equals the first segment;
  - neighbouring segments are adjacent;
  - everything is on the grid and the apple is in the field;
  - the score is a non-negative multiple of 10;
  - outside the game-over screen, there are 3 + score/10 segments, and the head is one step from the segment behind it in the current heading.

Some behaviours of the code are easy to misread; the model follows the code:

- The segment added on a meal is the last segment moved one cell *in* the direction of travel, not against it (`EatFood`). On a straight run it lands on the segment before it (`StraightGrowthOverlaps`). The next move drops it again (`OverlapGoneAfterNextMove`).
- The apple can lie under the snake, for two reasons:
  - The setup places it before the list exists (`InitialAppleMayLieOnSnake`).
  - A restart does not move it (`Game.GameOverFrame`).

  Only an apple placed after a meal is guaranteed off the snake.
- The meal comes before the collision tests, and the pause key is tested last. So P pressed in the frame of a collision gives PAUSED, not GAME_OVER (`Game.GamePlay`).
- The self-collision test skips the segment right behind the head. On a connected body that loses nothing (`SkipSecondIsHarmless`).

## Model

| member | source | states |
|---|---|---|
| `Geometry.Step` | main.c:356-405 | the cell one step away in a heading is a neighbour, and stays on the grid |
| `Geometry.AlignedOverlapIsEquality` | main.c:186 | for grid-aligned 10x10 cells, raylib's rectangle overlap holds exactly when the cells are equal |
| `Geometry.IsTouchingBorders` | main.c:297-306 | answers 1 exactly when the cell is outside [10, 780] x [10, 540], else 0 |
| `Geometry.SnapToGrid` | main.c:415-416 | the random draw rounded down to a multiple of 10, within 10 below the draw |
| `SnakeBody.IsSnakeHere` | main.c:111-126 | answers 1 exactly when some segment has the queried x and y, 0 otherwise (empty body included) |
| `SnakeBody.AreBlocksColliding` | main.c:279-295 | answers 1 exactly when the head equals a segment of index 2 or more; needs two segments |
| `SnakeBody.SkipSecondIsHarmless` | main.c:279-295 | on a connected body, skipping index 1 gives the same answer as comparing the head with every other segment |
| `SnakeBody.Advance` | main.c:165-179 | the move keeps the length, puts a neighbour of the old head first, and follows it with the old body minus its last segment |
| `SnakeBody.EatFood` | main.c:181-222 | yields a segment exactly when head and apple overlap (on the grid: are equal); the segment is the last one shifted one cell in the heading, a neighbour of it |
| `SnakeBody.AdvanceKeepsConnected` | main.c:356-405 | the move keeps every two consecutive segments adjacent |
| `SnakeBody.GrowKeepsConnected` | main.c:238-249 | appending the segment eatFood builds keeps every two consecutive segments adjacent |
| `SnakeBody.StraightGrowthOverlaps` | main.c:195-216 | when the last two segments run straight in the heading, the built segment lands on the one before the last |
| `SnakeBody.OverlapGoneAfterNextMove` | main.c:356-418 | after such a meal, the next move yields the old body behind a new head, one segment longer |
| `Food.MoveToEmptySpace` | main.c:128-147 | whenever the scan meets a free cell at all, stops at the first cell of the scan that no segment occupies; a free start is kept; the result is on the grid, in the field and free |
| `Food.NextScanCellRank` | main.c:133-145 | on the scanned region, one scan step goes to the next cell in reading order, wrapping from the last cell to the first |
| `Food.NextScanCellInField` | main.c:133-145 | a scan step from a grid cell of the field stays on the grid and in the field |
| `Food.ScanPathInField` | main.c:131-146 | any number of scan steps from a grid cell of the field stay on the grid and in the field |
| `Food.ScanProgress` | main.c:131-146 | every step of a scan that has not met a free region cell brings it strictly closer to that cell |
| `Food.FirstFreeUnique` | main.c:131-146 | the cell the scan settles on is determined by the body and the start |
| `Food.FirstFreeIsFree` | main.c:131-146 | the settled cell is free of the snake, on the grid and in the field |
| `Food.ScanPathShift` | main.c:131-146 | the scan from the next cell is the scan from the current cell one step later |
| `Food.ScanReaches` | main.c:131-146 | from any grid cell of the field the scan reaches every cell of the 77 x 53 region |
| `Food.FreeRegionCellEndsScan` | main.c:131-146 | a free cell anywhere in the region makes the scan from any grid cell of the field meet a free cell |
| `Food.ShortSnakeLeavesFreeCell` | main.c:131 | a body with fewer than 77 x 53 segments leaves a cell of the scanned region free |
| `Food.ShortSnakeScanEnds` | main.c:131-146 | on a body with fewer than 77 x 53 segments the scan from any grid cell of the field meets a free cell |
| `SnakeGame.InitialBody` | main.c:469-482 | the start snake has three connected, distinct grid cells in the field, head at (390, 270), with no self-collision |
| `SnakeGame.UpdateDirection` | main.c:319-342 | never the reverse of the current heading; with any acceptable key held, the first one in the order W, A, S, D; otherwise unchanged |
| `SnakeGame.ShortSnakeMealScanEnds` | main.c:410-418 | after a move leaving fewer than 77 x 53 - 1 segments, the new apple's scan over the grown body ends |
| `SnakeGame.NoReversal` | main.c:319-342 | whatever keys are held, the next head never steps back onto the segment behind the head |
| `SnakeGame.InitialAppleMayLieOnSnake` | main.c:524-535 | a draw on the start cells leaves the first apple under the snake |
| `SnakeGame.Game.constructor` | main.c:505-535 | the setup establishes the invariant: three-segment snake, heading up, running, score 0, apple at the rounded draw |
| `SnakeGame.Game.BuildInitialSnake` | main.c:531-535 | the list built from the head node and two appended nodes is the start snake |
| `SnakeGame.Game.DeleteLast` | main.c:165-179 | removes exactly the last segment; needs two segments |
| `SnakeGame.Game.AddToEnd` | main.c:238-249 | appends exactly one segment and changes nothing else |
| `SnakeGame.Game.Move` | main.c:356-405 | the head rectangle steps in the heading, and the body becomes the moved body with that head first |
| `SnakeGame.Game.Feed` | main.c:410-418 | when the head is on the apple: one segment appended, score +10, apple at the first free cell of the scan over the grown body; otherwise body, score and apple unchanged |
| `SnakeGame.Game.GamePlay` | main.c:344-434 | keeps the invariant; new heading by the rule; move, then meal; GAME_OVER on self-collision or border contact, but PAUSED whenever P was pressed |
| `SnakeGame.Game.PauseFrame` | main.c:436-453 | P returns to RUNNING, otherwise PAUSED stays; nothing else changes |
| `SnakeGame.Game.GameOverFrame` | main.c:455-498 | on every frame the snake is the start snake and the apple stays; a restart click sets score 0, RUNNING and heading up, otherwise those are kept |
| `SnakeGame.Game.Frame` | main.c:539-556 | keeps the invariant; running, it does everything `GamePlay` states; paused, everything `PauseFrame` states (only the state may change); on the game-over screen, everything `GameOverFrame` states |

## Left out

- Drawing, the window and frame pacing are left out (`ClearBackground`, `DrawRectangle*`, `DrawText`, `InitWindow`, `BeginDrawing`/`EndDrawing`, `SetTargetFPS`, `CloseWindow`, `paintNodes`, the score text). They are presentation only, in a foreign library. The `while (!WindowShouldClose())` loop is modelled by one pass, `Game.Frame`.
- Input polling (`IsKeyDown`, `IsKeyPressed`, `isPaused`, `IsMouseButtonPressed`, `GetMousePosition`) is replaced by the `Input` parameter. The restart click and raylib's `CheckCollisionPointRec` on the restart button become one boolean.
- `GetRandomValue` is replaced by the raw draws `randomX` in [10, 780] and `randomY` in [10, 540]. The model itself rounds them down to the grid.
- `printList` is left out: it is debug output only.
- `createNode`, `deleteNode` and `deleteNodes` (malloc/free) are left out. The body is a sequence, so the model keeps only their effect on the list's contents. It does not model node identity, aliasing, or the node-by-node walks of `deleteLast` and `addToEnd` to the last node.
- `Rectangle`'s float fields and the float constants are integers in the model. Every value the game produces is a multiple of 10, so no rounding happens. Width and height are always 10 and are not stored.
- `g_snakeTaleRec` is not a field. It only carries eatFood's result to addToEnd, and the model returns that result from `EatFood`. `g_snakeBody2Rec`, `g_snakeBody3Rec`, `g_positionVariance` and `g_countOfBlocks` are not modelled: they are scratch values or unused.
- Food.MoveToEmptySpace requires that its scan meets a free cell. The source's scan loops for ever otherwise, and a Dafny method must terminate, so the model leaves out that hang. A start in column 780 or row 540 that is free is kept, as in the source.
- SnakeGame.Game.Feed, SnakeGame.Game.GamePlay and SnakeGame.Game.Frame require the same of the apple scan after a meal (`MealScanEnds`), and only when the head is on the apple. That is exactly the case in which the source's frame ends. `ShortSnakeMealScanEnds` shows it holds whenever fewer than 77 x 53 - 1 segments remain after the move.

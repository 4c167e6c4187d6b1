# Falling-block game core in Dafny

This project models the logical core of a browser falling-block game (a
Tetris clone). It covers:

- the board of settled cells: validity of a piece position, committing a
  piece, clearing full rows, the empty board;
- the falling piece: spawning from the template table, the unit moves, and
  the rotation;
- the level: deriving it from the score, and the fall-interval table;
- the game loop: one animation frame, the keyboard/gamepad move handler, and
  the state effects of start, reset and game over.

Everything is modelled as immutable values and pure functions. The random
template draw and the elapsed time are parameters.

Modules, one per source file, plus two helpers:

- `Constants` (`constants.dfy`): board size, piece templates, points per
  line, speed table, and lemmas about these tables.
- `Tetrominoes` (`tetromino.dfy`): the piece, its moves and its rotation.
  The methods `TransposeSwap`, `ReverseRepeatedly` and `RotateInPlace` follow
  the source's loops. `TransposeSwap` is proved equal to `Transpose`;
  `ReverseRepeatedly` to `Reverse` for an odd side and to the identity for an
  even side; `RotateInPlace`, the two loops in sequence, to `Rotate`.
- `GameBoard` (`board_game.dfy`): `IsValid`, `Save`, `ClearLines`, `EmptyBoard`.
  Each declarative definition has a method that follows the source's loop and
  is proved equal to it: `IsValidScan`, `SaveScan`, `ClearLineScan`.
- `Levels` (`level.dfy`): the level record and its update.
- `GameLoop` (`game.dfy`): the game state, `Tick`, `TryToMove`, `HandleKey`,
  `Start`, `Reset` and `GameOver`. It also holds the state invariant and
  proves that start establishes it and every event keeps it.
- `Matrix` (`matrix.dfy`): square matrices, transpose, row reversal, and the
  nonzero-cell count.
- `Wrappers` (`wrappers.dfy`): the `Option` type.

Behaviour worth knowing, modelled as the code does it:

- **Rotation.** `rotate` transposes the shape, then calls in-place `reverse()`
  once per row. The rows therefore end up reversed only when the side is odd.
  3×3 shapes turn a quarter anticlockwise: cell (r, c) moves to (n-1-c, r)
  (`Tetrominoes.RotateOddMovesCell`). The 2×2 and 4×4 shapes are only
  transposed, so for them two rotations already give back the original.
- **Validity check.** It has no lower bound on y. A nonzero cell above the top
  of the board, between the walls, never rejects a position, because reading
  a missing row yields `undefined`. `Occupied` models exactly that
  truthiness test.
- **Line clear.** The scan index always advances. After a splice and an
  unshift, the row that moves into place at the current index is either a
  fresh empty row or a row already found not full. So every original row is examined exactly once. The result is k
  empty rows on top of the non-full rows, in their original order.
- **Level.** It is not clamped. Once the level reaches MAX_LEVEL, `updateLevel`
  stops recomputing it. But a multi-line clear from level 9 can jump straight
  to level 11, 12 or 13. The speed-table read then falls past the end of the
  table, which is `None` in the model. From then on the timer comparison is
  always false, so a frame steps only when exactly no time has elapsed.
  `Levels.LevelOverflow` exhibits such a case.
- **Timer.** The timer comparison is strict: a frame steps when no time has
  elapsed, or when strictly more than the fall interval has elapsed.
- **Save.** `save` writes the shape's cell value, which for template i is
  i+1 (`Constants.TemplateValues`).

Key events are strings, as the source receives them. `GameLoop.MoveForKey`
maps the four arrow codes to a `Move` and every other string to `None`.

## Model

| member | source | states |
|---|---|---|
| Constants.TemplatesAreSquare | js/constants.ts:29-86 | there are seven templates, each a square of side 2, 3 or 4, as the rotation needs |
| Constants.TemplateValues | js/constants.ts:29-86 | every nonzero entry of template i is i+1, the index the board's colour lookup subtracts one from |
| Constants.TemplatesHaveFourCells | js/constants.ts:29-86 | every template has exactly four nonzero cells |
| Constants.SpeedTable | js/constants.ts:91-101 | the speed table has MAX_LEVEL entries, starts at 600 (a new level's interval) and strictly decreases |
| Tetrominoes.CreateTetromino | js/tetromino.ts:40-57 | a spawn is on row 0 with the drawn template's shape and colour, centred on its outer side (right margin equals the left or exceeds it by one); x is 6 for sides 2 and 3 and 5 for side 4 |
| Tetrominoes.MoveDown | js/tetromino.ts:80-82 | moving down raises y by one and changes nothing else |
| Tetrominoes.MoveLeft | js/tetromino.ts:87-89 | moving left lowers x by one and changes nothing else |
| Tetrominoes.MoveRight | js/tetromino.ts:94-96 | moving right raises x by one and changes nothing else |
| Tetrominoes.MoveLeftRightInverse | js/tetromino.ts:87-96 | a left move and a right move undo each other |
| Tetrominoes.RotateShape | js/tetromino.ts:109-126 | the rotated shape is square with the same side and the same number of nonzero cells; for an odd side cell (i,j) comes from (j, n-1-i), for an even side from (j,i) |
| Tetrominoes.Rotate | js/tetromino.ts:109-126 | rotation keeps x, y and colour, the side length and the number of nonzero cells |
| Tetrominoes.TransposeSwap | js/tetromino.ts:112-120 | the swap loop over the cells below the diagonal yields the transpose |
| Tetrominoes.ReverseRepeatedly | js/tetromino.ts:122-125 | reversing the rows once per row reverses them for an odd side and leaves them unchanged for an even side |
| Tetrominoes.RotateInPlace | js/tetromino.ts:109-126 | the loops of the source, run in sequence, compute exactly `Rotate` |
| Tetrominoes.RotateExample | js/tetromino.ts:100-106 | the documented example [[1,0,0],[1,1,1],[0,0,0]] rotates to [[0,1,0],[0,1,0],[1,1,0]] |
| Tetrominoes.RotateNotClockwise | js/tetromino.ts:100-106 | the documented example does not come out as its clockwise quarter turn [[0,1,1],[0,1,0],[0,1,0]] |
| Tetrominoes.RotateOddMovesCell | js/tetromino.ts:109-126 | for an odd side the rotation is a quarter turn anticlockwise: cell (r,c) moves to (n-1-c, r) |
| Tetrominoes.RotateTwiceEven | js/tetromino.ts:109-126 | for an even side two rotations restore the shape |
| Tetrominoes.RotateTwiceOdd | js/tetromino.ts:109-126 | for an odd side two rotations turn the shape half way round |
| Tetrominoes.RotateFourTimes | js/tetromino.ts:109-126 | four rotations restore every square shape |
| Tetrominoes.RotatePieceFourTimes | js/tetromino.ts:109-126 | four rotations give back the same piece |
| GameBoard.EmptyBoard | js/board-game.ts:141-145 | the reset board has BOARD_ROWS rows of BOARD_COLS cells, all zero |
| GameBoard.IsValid | js/board-game.ts:90-118 | only nonzero cells are checked, so a shape with no nonzero cell is valid at every position on every board (the bounds and overlap conditions are stated by the lemmas below) |
| GameBoard.IsValidScan | js/board-game.ts:90-118 | the early-return scan of the source answers true exactly when every cell of the piece fits (`IsValid`) |
| GameBoard.OutOfBoundsIsInvalid | js/board-game.ts:101-108 | a nonzero cell left of, right of or below the board makes the position invalid |
| GameBoard.EmptyCellsIgnored | js/board-game.ts:96-99 | a zero cell of the shape never rejects a position, wherever it lands |
| GameBoard.AboveTopFits | js/board-game.ts:101-113 | a cell above the top of the board, between the walls, never rejects a position |
| GameBoard.InBoundsValidIffNoOverlap | js/board-game.ts:110-117 | for a piece whose nonzero cells lie on the board: valid if and only if none of them hits a nonzero board cell |
| GameBoard.Save | js/board-game.ts:125-136 | committing keeps the dimensions, writes each positive shape cell to its board cell, and leaves every other cell unchanged |
| GameBoard.SaveScan | js/board-game.ts:125-136 | the nested write loop of the source computes exactly `Save` |
| GameBoard.CountFull | js/board-game.ts:64-80 | the count of rows whose every cell is positive never exceeds the number of rows |
| GameBoard.KeepNonFull | js/board-game.ts:64-80 | the surviving rows are original rows, none of them full, and their number plus the number of full rows is the number of rows |
| GameBoard.KeepNonFullMultiset | js/board-game.ts:64-80 | the surviving rows are exactly the non-full rows with their multiplicities: no full row survives, and no row is lost, duplicated or invented |
| GameBoard.ClearLines | js/board-game.ts:64-80 | the count is the number of full rows; the board is that many empty rows over the non-full rows in order; it keeps BOARD_ROWS rows, stays well formed, and has no full row |
| GameBoard.ClearLineScan | js/board-game.ts:64-80 | the splice-and-unshift scan of the source returns exactly `ClearLines` |
| GameBoard.ScanStep | js/board-game.ts:67-76 | during the scan the row at the scan index is still the original one, and one iteration keeps the scan's invariant |
| GameBoard.ClearLinesNoFull | js/board-game.ts:64-80 | a board without a full row is returned unchanged with count 0 |
| GameBoard.ClearEmptyBoard | js/board-game.ts:141-145 | clearing the empty board returns 0 and the same board |
| GameBoard.ValidOnEmptyBoard | js/board-game.ts:90-118 | on the empty board every piece lying within the walls and above the floor is valid |
| Levels.SpeedFor | js/level.ts:44 | the table read yields an interval exactly for levels 1 to MAX_LEVEL, and it is SPEED_IN_MS[level-1] |
| Levels.NewLevel | js/level.ts:17-20 | a new level is 1 with interval 600, the table entry for level 1 |
| Levels.LevelFromScore | js/level.ts:29-31 | the derived level l satisfies (l-1)·1000 ≤ score < l·1000 |
| Levels.LevelFromScoreExamples | js/level.ts:29-31 | scores 0, 999, 1000 and 9999 give levels 1, 1, 2 and 10 |
| Levels.LevelFromScoreMonotone | js/level.ts:29-31 | a larger score never gives a smaller level |
| Levels.UpdateLevel | js/level.ts:38-47 | no change at or past MAX_LEVEL; below it the level becomes the one derived from the score; the interval changes only with the level, to the table entry |
| Levels.UpdateKeepsSpeedConsistent | js/level.ts:38-47 | if the interval was the table entry for the level, it still is after an update |
| Levels.UpdateMonotone | js/level.ts:38-47 | for non-decreasing scores the level never decreases and never runs ahead of the score |
| Levels.LevelOverflow | js/level.ts:38-47 | from level 9 a score of 12 500 gives level 13 with no interval: the level is not clamped |
| Levels.OverflowIsFinal | js/level.ts:39 | a level past MAX_LEVEL is never updated again, and its interval is absent |
| GameLoop.MoveForKey | js/game.ts:80-88 | exactly the four arrow codes map to a move; ArrowUp rotates and ArrowDown moves down |
| GameLoop.ApplyMove | js/game.ts:80-88 | each move builds its candidate from the piece by the matching piece operation; the candidate stays square and never moves up |
| GameLoop.Reset | js/game.ts:172-195 | reset leaves a new level, score 0, an empty board and no scheduled frame; the pieces are untouched |
| GameLoop.GameOver | js/game.ts:228-235 | game over has the state effects of reset: stopped, score 0, empty board |
| GameLoop.Start | js/game.ts:200-223 | a new game has an empty board, score 0, a new level, the two drawn spawns, runs, and satisfies the invariant |
| GameLoop.TimerFires | js/game.ts:258-260 | the first frame (no time elapsed) always steps; with an interval, a positive elapsed time up to the interval does not step and anything beyond it does; with no interval only zero elapsed time steps |
| GameLoop.UpdateScore | js/game.ts:347-349 | the score grows by lines·100·level, never decreases for non-negative lines and levels, and keeps its remainder modulo POINTS_PER_LINE |
| GameLoop.UpdateScoreExample | js/game.ts:347-349 | one line at level 3 adds 300; four lines at level 1 add 400 |
| GameLoop.ValidSavesInBounds | js/board-game.ts:90-136 | a valid piece at or below row 0 on a well-formed board has every positive cell on the board, so `save` stays in range |
| GameLoop.LandingClear | js/game.ts:276-280 | committing the landed piece and clearing rows leaves a well-formed board |
| GameLoop.Land | js/game.ts:276-305 | a landing promotes the next piece, spawns the drawn one, keeps the loop running and leaves a well-formed board with no full row |
| GameLoop.Fall | js/game.ts:261-306 | a valid down-candidate replaces the piece and nothing else changes; otherwise at y ≤ 0 the game stops with empty board, score 0 and level 1, and at y > 0 the piece lands: next promoted, drawn piece spawned, score and level grown, board left without full rows |
| GameLoop.Tick | js/game.ts:257-309 | state changes only if running and the timer fires; a valid down-candidate replaces the piece and nothing else; an invalid one at y ≤ 0 stops the game with empty board, score 0 and level 1; otherwise the board becomes the cleared board after save, next is promoted, a new spawn drawn, the score grows by lines·100·level, and the level is updated only if rows were cleared |
| GameLoop.TryToMove | js/game.ts:396-411 | an unknown key changes nothing; only the falling piece can change, and it becomes the candidate exactly when the candidate is valid |
| GameLoop.HandleKey | js/game.ts:416-427 | the keyboard and gamepad handlers pass the key to the move handler; without a running game key events have no effect, since reset removes the listeners (js/game.ts:184-185) and only start adds them (js/game.ts:213-216) |
| GameLoop.StartFirstTick | js/game.ts:218-222 | the first frame of a new game steps at once, since no time has elapsed, and moves the piece one row down |
| GameLoop.TickPreservesInv | js/game.ts:257-309 | a frame keeps the invariant: piece at or below row 0 and either on row 0 or valid, next on row 0, score a non-negative multiple of 100, level consistent |
| GameLoop.LandPreservesInv | js/game.ts:276-305 | a landing keeps the invariant |
| GameLoop.HandleKeyPreservesInv | js/game.ts:396-411 | a key event keeps the invariant |
| GameLoop.TickMonotone | js/game.ts:283-296 | while the game keeps running, a frame never lowers the score or the level |
| GameLoop.TimerIsStrict | js/game.ts:258-260 | an elapsed time equal to the interval does not step; one more millisecond does, and so does zero |
| GameLoop.Step | js/game.ts:257-309 | one event keeps the invariant |
| GameLoop.Run | js/game.ts:257-309 | every sequence of frames and key events keeps the invariant |
| GameLoop.StepKeepsNextSpawn | js/game.ts:297-305 | one event keeps the next piece a template's spawn: frames and keys leave it alone except a landing, which replaces it with the drawn spawn |
| GameLoop.RunKeepsNextSpawn | js/game.ts:297-305 | any sequence of events keeps the next piece a template's spawn |
| GameLoop.ReachableNextIsSpawn | js/game.ts:200-210 | in every game reached from a start the next piece is `CreateTetromino(i)` for some template i, as start and every landing create it |
| GameLoop.ReachableLandingsInBounds | js/game.ts:276 | in every game reached from a start, committing the falling piece below row 0 writes only inside the grid |

## Left out

- Drawing: `draw`, `drawPreview`, `welcome`, the painting in `gameOver`, canvas sizing and `setContext`. These only render the state.
- Sound and the DOM: all `sound` calls (the rotate sound even plays for a rejected rotation), `updateUi`, and the entry script wiring the page.
- Scheduling: `requestAnimationFrame` and `cancelAnimationFrame` become the `running` flag.
- Time: `performance.now` and the stored `time` become the `elapsed` parameter of `Tick`. It is an integer; fractional timestamps and NaN are not modelled.
- Randomness: `Math.random` becomes the template index parameter, taken in range. The `console.error` branch for a missing template is therefore unreachable and is not modelled.
- `clone`: pieces are immutable values, so a copy is the piece itself and no member models it. The source spawns a piece sharing its template's shape array and relies on cloning before every move and rotation to keep the template intact. With values this cannot go wrong.
- The `Game` constructor's initial state (a one-row board and no pieces). The entry script only calls `start` when no game runs, and `Start` depends on nothing from the previous state.
- Jagged shapes. The source's scans bound every row by the first row's length. The model's scan methods require rectangular shapes, which every reachable shape is.
- Inherited JavaScript object property names used as key codes (such as "constructor"), which the source's lookup table would not treat as unknown. Key and button names never take these values.
- JavaScript number semantics: the model uses unbounded integers. Scores and coordinates stay small.

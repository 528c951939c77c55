# Tetris game logic in Dafny

This project models the game logic of a Swing Tetris game. Two Java classes are covered:

- `Tetromino`, the falling piece: a shape tag and four (x, y) offsets taken from a fixed table, with quarter-turn rotations.
- The non-graphical part of `GameBoardPanel`: a flat 10 x 22 board, row 0 at the bottom, with cell (x, y) at index `y * 10 + x`. It also covers the collision test, line clearing, the level-to-interval table, spawning, fixing a piece, the timer tick, start, pause and the key commands.

The model has two layers:

- **Values and transitions.** Modules `Tetrominoes`, `Board` and `Engine` describe the piece, the grid and the whole panel state (`Engine.Game`) as values. Every event handler is a function from state to state plus an `Outcome`. `Outcome` is a normal end, a game over with the final score, or the array-index exception that `fixTetromino` can raise. The lemmas about these functions carry the properties:
  - rotation inverses and period 4;
  - the minimum scans;
  - the effects of row shifting and line clearing;
  - the spawn position;
  - what fixing a piece writes;
  - the invariant `Engine.Playable`, kept by every tick and by every key that raises no exception;
  - which keys can raise the exception: only space, which runs `advanceToEnd` as written (see Findings);
  - the score never falling during a game, on ticks and on keys alike.
- **Objects.** `Tetrominoes.Tetromino` and `Panel.GameBoardPanel` are classes whose fields the methods update in place, as the Java does. `Tetromino` keeps a `4 x 2` array of offsets. `GameBoardPanel` keeps the board as an `array<Shape>`. Each method's loops carry invariants, and its postcondition says the new state is exactly the transition of the value layer applied to the old state. The lemmas about that transition then apply to the object.

Random draws (`ThreadLocalRandom.nextInt(1, 8)`) are parameters `pick` in `[1, 8)`. A spawn can end the game, and `gameOver` restarts the game, which spawns again. So every handler that may spawn takes a second draw, `restartPick`, for that restart spawn. The restart spawn happens on a cleared board, where it always fits. This is what bounds the recursion through `newTetromino`, `gameOver` and `start`.

Where a reader might expect different behaviour, the model follows the code:

- `removeFullLines` scans from the top row down.
- `shiftLinesDown` leaves the top row as it was instead of emptying it. So a full top row stays full after a clear.
- `setResolution` gives 100 ms only at level exactly 10. Levels above 10 fall back to 370 ms.
- `start` does not reset the timer interval. `gameOver` sets the interval for the final score just before `start`.
- `rotateLeft` and `rotateRight` return the O piece itself, unturned.
- The space key runs `advanceToEnd` exactly as written, two rows per successful test. The corrected drop is modelled beside it (`Engine.HardDropped`, `Engine.CorrectedKeyPressed`, `Panel.GameBoardPanel.HardDrop`), but no key of the program reaches it.
- The spawn column is `10 / 2 + 1 = 6`.

## Model

| member | source | states |
|---|---|---|
| Tetrominoes.Ordinal | projectoop/tetris/Tetromino.java:6-8 | `ordinal()`: the position of a tag in the declaration, below the number of tags (8); it indexes the shape table. |
| Tetrominoes.ShapeAt | projectoop/tetris/Tetromino.java:6-8 | The tag at position i of the declaration has ordinal i, and it is NoBlock exactly when i is 0. So a draw from [1, 8) is never NoBlock. |
| Tetrominoes.Coords | projectoop/tetris/Tetromino.java:10-19 | Every row of the shape table has exactly four offsets. |
| Tetrominoes.TableRowsAreTetrominoes | projectoop/tetris/Tetromino.java:10-19 | Each real shape's row has four pairwise distinct offsets, one of them (0, 0). The NoBlock row is (0, 0) four times. |
| Tetrominoes.RotatedRight | projectoop/tetris/Tetromino.java:86-100 | Turning right keeps the tag and the number of offsets. |
| Tetrominoes.RotatedLeft | projectoop/tetris/Tetromino.java:70-84 | Turning left keeps the tag and the number of offsets. |
| Tetrominoes.TurnRight | projectoop/tetris/Tetromino.java:95-96 | The per-offset map of `rotateRight`: (x, y) becomes (-y, x). |
| Tetrominoes.TurnLeft | projectoop/tetris/Tetromino.java:79-80 | The per-offset map of `rotateLeft`: (x, y) becomes (y, -x). |
| Tetrominoes.RotateLeftUndoesRight | projectoop/tetris/Tetromino.java:70-100 | For every piece, a left turn after a right turn gives back the piece. |
| Tetrominoes.RotateRightUndoesLeft | projectoop/tetris/Tetromino.java:70-100 | For every piece, a right turn after a left turn gives back the piece. |
| Tetrominoes.FourRightTurnsRestore | projectoop/tetris/Tetromino.java:86-100 | Four right turns give back the piece's offsets and tag. |
| Tetrominoes.RotationKeepsAnchor | projectoop/tetris/Tetromino.java:70-100 | A piece that covers its anchor still covers it after either turn. |
| Tetrominoes.TurningOWouldMoveIt | projectoop/tetris/Tetromino.java:10-19 | A quarter turn of the O row of the table would cover cells outside the O row. |
| Tetrominoes.LowestY | projectoop/tetris/Tetromino.java:62-68 | The `minY` scan as a recursive minimum over the offsets. `LowestYIsLeast` proves it the least y offset, and `Tetromino.MinY` proves the loop equal to it. |
| Tetrominoes.LowestYIsLeast | projectoop/tetris/Tetromino.java:62-68 | The least y offset is at most every y offset and equal to one of them. |
| Tetrominoes.Tetromino.constructor | projectoop/tetris/Tetromino.java:24-27 | A new piece owns a fresh 4 x 2 array holding the NoBlock row. |
| Tetrominoes.Tetromino.SetShape | projectoop/tetris/Tetromino.java:29-35 | After the loop, the array holds table row s in place (same array) and the tag is s. |
| Tetrominoes.Tetromino.SetRandomShape | projectoop/tetris/Tetromino.java:37-40 | For a draw x in [1, 8), the piece becomes table row x, and its tag is not NoBlock. |
| Tetrominoes.Tetromino.GetShape | projectoop/tetris/Tetromino.java:42-44 | Returns the tag of the piece the object holds. |
| Tetrominoes.Tetromino.GetX | projectoop/tetris/Tetromino.java:46-48 | Returns the x part of offset `index`. |
| Tetrominoes.Tetromino.GetY | projectoop/tetris/Tetromino.java:50-52 | Returns the y part of offset `index`. |
| Tetrominoes.Tetromino.MinX | projectoop/tetris/Tetromino.java:54-60 | The scan returns a value at most every x offset and equal to one of them. |
| Tetrominoes.Tetromino.MinY | projectoop/tetris/Tetromino.java:62-68 | The scan returns `LowestY` of the offsets, which is the least y offset by `LowestYIsLeast`. |
| Tetrominoes.Tetromino.RotateLeft | projectoop/tetris/Tetromino.java:70-84 | For O, the result is the receiver itself. Otherwise it is a fresh object holding every offset turned left, with the same tag. The receiver is not modified. |
| Tetrominoes.Tetromino.RotateRight | projectoop/tetris/Tetromino.java:86-100 | For O, the result is the receiver itself. Otherwise it is a fresh object holding every offset turned right, with the same tag. The receiver is not modified. |
| Board.CellAt | projectoop/tetris/GameBoardPanel.java:130-132 | `curTetrominoPos`: the tag at index y * 10 + x, for a board cell (x, y). |
| Board.Fits | projectoop/tetris/GameBoardPanel.java:231-241 | The test `atomIsMovable` makes: every cell (x + dx, y - dy) of the piece is a board cell holding NoBlock. |
| Board.RowFull | projectoop/tetris/GameBoardPanel.java:214-221 | A row is full when none of its ten cells holds NoBlock. |
| Board.IndexOfCell | projectoop/tetris/GameBoardPanel.java:130-132 | Every board cell maps to an index inside the 220-cell array. |
| Board.EmptyGrid | projectoop/tetris/GameBoardPanel.java:81-85 | The cleared board has 220 cells, all NoBlock. |
| Board.ShiftedDown | projectoop/tetris/GameBoardPanel.java:223-229 | Rows below fromRow keep their contents. Each row k with fromRow <= k <= 20 gets the old row k + 1. The top row keeps its contents. |
| Board.ClearFrom | projectoop/tetris/GameBoardPanel.java:199-204 | The top-down scan of `removeFullLines` from row i: a full row is counted and the rows above it shift down. The resulting board has 220 cells. `ClearFromCounts` relates its count to `FullRowsBelow`. |
| Board.Cleared | projectoop/tetris/GameBoardPanel.java:198-204 | The whole scan of `removeFullLines`, from row 21 down to row 0 with the count starting at 0: the new board (220 cells) and the number of full rows met. `ClearedCountsFullRows` and `ClearedLeavesNoFullRow` state its effect. |
| Board.FullRowsBelow | projectoop/tetris/GameBoardPanel.java:214-221 | The number of full rows among rows 0 .. k - 1, counted on the board as given; it is at most k. This is the independent count the scan is checked against. |
| Board.ShiftKeepsCountBelow | projectoop/tetris/GameBoardPanel.java:223-229 | A shift from fromRow keeps the number of full rows below fromRow. |
| Board.ClearFromCounts | projectoop/tetris/GameBoardPanel.java:199-204 | The scan from row i down counts exactly the rows 0 .. i that were full when it started. |
| Board.ClearedCountsFullRows | projectoop/tetris/GameBoardPanel.java:197-206 | The full scan counts exactly the rows that were full before the call. |
| Board.ClearFromNoFullRow | projectoop/tetris/GameBoardPanel.java:199-204 | With no full row at or below i, the scan changes neither the board nor the count. |
| Board.ClearFromLeavesNoFullRow | projectoop/tetris/GameBoardPanel.java:199-204 | The scan leaves no full row, provided no row above the scan point is full and the top row is not full. |
| Board.ClearedLeavesNoFullRow | projectoop/tetris/GameBoardPanel.java:197-212 | If the top row is not full before the call, no row is full afterwards. |
| Board.JavaDiv | projectoop/tetris/GameBoardPanel.java:65 | Java's integer division truncates toward zero, for both signs of the dividend. |
| Board.Resolution | projectoop/tetris/GameBoardPanel.java:64-79 | Level 10 gives 100. Levels 2..9 give 400 - 30 * level. Every other level, including those above 10, gives 370. |
| Board.ResolutionNonIncreasing | projectoop/tetris/GameBoardPanel.java:64-79 | For scores 0..109, a higher score never gives a longer interval. |
| Board.FastestOnlyAtLevelTen | projectoop/tetris/GameBoardPanel.java:66-77 | The 100 ms interval belongs exactly to scores 100..109. Every score from 110 on gives 370. |
| Engine.Initial | projectoop/tetris/GameBoardPanel.java:42-62 | The constructor's state: a cleared board, the NoBlock piece at (0, 0), score 0, all three flags false, the timer running at the given interval. |
| Engine.InitialPlayable | projectoop/tetris/GameBoardPanel.java:42-62 | The constructor's state satisfies the panel invariant. |
| Engine.Moved | projectoop/tetris/GameBoardPanel.java:231-253 | `isMovable`: if the piece fits at (x, y), the piece and anchor become (p, x, y); otherwise the state is unchanged. |
| Engine.MovedPlayable | projectoop/tetris/GameBoardPanel.java:251-253 | A successful or failed move keeps the invariant for any candidate piece that covers its anchor. |
| Engine.Placed | projectoop/tetris/GameBoardPanel.java:256-258 | The position `newTetromino` tries: the drawn shape's table row at column 6 and row 21 + minY; the rest of the state is kept. |
| Engine.PlacedHighestCellOnTopRow | projectoop/tetris/GameBoardPanel.java:255-258 | At spawn row 21 + minY, every cell of the piece is at or below the top row, and one of them is on it. |
| Engine.SpawnFitsOnEmptyGrid | projectoop/tetris/GameBoardPanel.java:255-259 | On a cleared board, every drawn shape fits at the spawn position, and the anchor is a board cell. |
| Engine.SpawnFits | projectoop/tetris/GameBoardPanel.java:257-259 | A piece with table-sized offsets that covers its anchor fits at column 6, row 21 + minY of the empty board. |
| Engine.TableOffsetsSmall | projectoop/tetris/Tetromino.java:10-19 | Every table offset lies within one column of the anchor, and between one row above and two rows below it. |
| Engine.Spawned | projectoop/tetris/GameBoardPanel.java:255-265 | `newTetromino`: the drawn shape placed at column 6, row 21 + minY. If it fits, that is the new state. Otherwise the piece becomes NoBlock, the timer stops, the game is no longer started, and `gameOver` runs, with outcome game over at the old score. `SpawnedOutcome` spells out both cases. |
| Engine.Restarted | projectoop/tetris/GameBoardPanel.java:303-304 | `gameOver` as a state change: the interval for the final score, then `start`. |
| Engine.Started | projectoop/tetris/GameBoardPanel.java:97-107 | `start`: nothing while paused; otherwise started, fall flag cleared, score 0, cleared board, a new piece, timer running, interval kept. `StartedResets` states the result outright. |
| Engine.StartedResets | projectoop/tetris/GameBoardPanel.java:97-107 | While paused, start changes nothing. Otherwise the state is the started flag set, the fall flag cleared, score 0, a cleared board, the spawned piece and a running timer, and the interval is the old one. |
| Engine.StartedPlayable | projectoop/tetris/GameBoardPanel.java:97-107 | Start from any state with a 220-cell board leaves a state satisfying the invariant; when paused, the state must already satisfy it, since start then changes nothing. |
| Engine.SpawnedOutcome | projectoop/tetris/GameBoardPanel.java:255-265 | A fitting spawn changes only the piece and anchor and continues. A blocked spawn reports game over with the old score and sets the interval for that score. Then, if paused, the game stays stopped with the board kept; otherwise a new game runs with score 0 and a cleared board. |
| Engine.SpawnedFree | projectoop/tetris/GameBoardPanel.java:259 | When the spawn position is free, the spawn is exactly the placement and continues. |
| Engine.SpawnedBlocked | projectoop/tetris/GameBoardPanel.java:259-264 | When the spawn is blocked, the board is not empty. The result is the piece cleared, the timer stopped, started false, then the game-over restart, with outcome game over at the old score. |
| Engine.SpawnedPlayable | projectoop/tetris/GameBoardPanel.java:255-265 | A spawn from a state with a non-negative score and no pending clear leaves a state satisfying the invariant. |
| Engine.LinesRemoved | projectoop/tetris/GameBoardPanel.java:197-212 | `removeFullLines`: the scan's board; if it met full rows, the score grows by their number, the fall is done, the piece is NoBlock and the interval is set for the new score. `LinesRemovedEffects` states the effects. |
| Engine.LinesRemovedEffects | projectoop/tetris/GameBoardPanel.java:197-212 | The score grows by the number of rows full before the call. With none full, nothing changes. Otherwise the fall is done, the piece is NoBlock and the interval matches the new score. If the top row was not full, no row is full afterwards. The anchor, the started and paused flags and the timer's running state are kept. |
| Engine.NoFullRowCounted | projectoop/tetris/GameBoardPanel.java:214-221 | A zero count of full rows below k means no row below k is full. |
| Engine.PieceIndices | projectoop/tetris/GameBoardPanel.java:269-271 | The indices `fixTetromino` writes, in order: (y - dy) * 10 + x + dx for each offset, one per offset. |
| Engine.Stamp | projectoop/tetris/GameBoardPanel.java:268-272 | The write loop: the tag written at each index in turn; an index outside the array stops the writes there (the exception) and reports failure, keeping the writes made so far. The board keeps its size. |
| Engine.StampInRange | projectoop/tetris/GameBoardPanel.java:268-272 | With all indices in the array, the writes succeed and set exactly the indexed cells to the tag. |
| Engine.StampSucceedsIff | projectoop/tetris/GameBoardPanel.java:268-272 | The writes complete without the exception if and only if every index is inside the array. |
| Engine.FittingPieceIndices | projectoop/tetris/GameBoardPanel.java:269-271 | For a piece that fits, the four indices fixTetromino writes are inside the array and point at empty cells. |
| Engine.Fixed | projectoop/tetris/GameBoardPanel.java:267-277 | `fixTetromino`: the piece's tag written at its four indices in order, stopping with the exception at the first index outside the array; then line removal, then a spawn unless the fall is done. `FixedEffects` and `FixedScore` state its effects. |
| Engine.FixedEffects | projectoop/tetris/GameBoardPanel.java:267-277 | In a playable state, fixing writes the piece's tag at exactly its four cells, which were empty. Every other cell is kept before line removal, and no exception is raised. A new piece spawns at once exactly when no row was full; otherwise the piece is NoBlock, the fall is done and the score grows by the cleared rows. |
| Engine.PieceIndicesInRange | projectoop/tetris/GameBoardPanel.java:268-271 | In a playable state, all four indices of the active piece are inside the array. |
| Engine.FixedPlayable | projectoop/tetris/GameBoardPanel.java:267-277 | Fixing keeps the invariant. |
| Engine.Descended | projectoop/tetris/GameBoardPanel.java:279-283 | `advanceOneLine`: down one row if the piece fits there, else fix it. |
| Engine.DescendedFixesFreeCells | projectoop/tetris/GameBoardPanel.java:279-283 | advanceOneLine never raises the exception. When it fixes the piece, every cell it writes is a board cell that was empty. |
| Engine.DescendedPlayable | projectoop/tetris/GameBoardPanel.java:279-283 | advanceOneLine keeps the invariant. |
| Engine.DropRowAsWritten | projectoop/tetris/GameBoardPanel.java:286-288 | The row the as-written loop stops at: if the piece fits one row lower, continue from two rows lower (the successful move plus the untested decrement); otherwise stay. |
| Engine.DroppedAsWritten | projectoop/tetris/GameBoardPanel.java:285-290 | `advanceToEnd` as written: the piece moved to `DropRowAsWritten`, two rows down per successful test with the second row untested, then fixed. |
| Engine.ShadowRow | projectoop/tetris/GameBoardPanel.java:157-162 | The row the shadow is drawn on: down from the piece's row while above row 0 and the piece fits one row lower. |
| Engine.LandingRow | projectoop/tetris/GameBoardPanel.java:286-288 | The corrected loop's row: down one row at a time while the piece fits one row lower. `LandingRowFits` proves it fits, cannot go lower, and equals the shadow's row. |
| Engine.HardDropped | projectoop/tetris/GameBoardPanel.java:285-290 | The corrected hard drop: down one row at a time while the piece fits (`LandingRow`), then fixed. |
| Engine.LandingRowFits | projectoop/tetris/GameBoardPanel.java:157-162 | From a fitting position, the one-row-at-a-time landing row fits, the row below it does not, and it equals the row the shadow search finds. |
| Engine.HardDropLandsOnShadow | projectoop/tetris/GameBoardPanel.java:285-290 | The corrected hard drop fixes the piece on the shadow's row, where it fits and cannot go one lower, and raises no exception. |
| Engine.HardDroppedPlayable | projectoop/tetris/GameBoardPanel.java:285-290 | The corrected hard drop keeps the invariant. |
| Engine.ZDropAsWrittenReachesRowZero | projectoop/tetris/GameBoardPanel.java:286-288 | On the empty board, the as-written loop takes a Z piece at column 6 from any even row to row 0. |
| Engine.HardDropAsWrittenCrashes | projectoop/tetris/GameBoardPanel.java:285-290 | The first piece of a new game is a Z at row 20, in a playable state; advanceToEnd as written then raises the exception. |
| Engine.ZDropAsWrittenCrashes | projectoop/tetris/GameBoardPanel.java:285-290 | The as-written hard drop of a Z from row 20 of the empty board raises the exception. |
| Engine.ZStampCrashes | projectoop/tetris/GameBoardPanel.java:271 | A Z at column 6 of row 0 maps a cell below the board, to index -5, so the writes fail. |
| Engine.HardDropAsWrittenOverwrites | projectoop/tetris/GameBoardPanel.java:285-290 | With one block at (6, 18), a T spawned on row 21 fits there, but the as-written loop stops on row 19. The piece does not fit there, and one of its cells is the occupied (6, 18). |
| Engine.HardDropCorrectedOnOneBlockBoard | projectoop/tetris/GameBoardPanel.java:157-162 | On the same board, the corrected drop lands the T on row 20, where it fits, which is the shadow's row. |
| Engine.Ticked | projectoop/tetris/GameBoardPanel.java:87-95 | `actionPerformed`: after a clear, the fall flag is cleared and a piece spawns; otherwise the piece descends one row. |
| Engine.Paused | projectoop/tetris/GameBoardPanel.java:109-120 | `pause`: nothing unless started; otherwise the paused flag flips, the timer stops on pausing and runs again on resuming. |
| Engine.PauseTwiceResumes | projectoop/tetris/GameBoardPanel.java:109-120 | Pausing twice restores the state, with the timer running exactly when not paused. Unstarted, pause does nothing. |
| Engine.KeyHandled | projectoop/tetris/GameBoardPanel.java:342-350 | `handleKeyPress`: left and right try the anchor one column over, rotate tries the right-turned piece, down descends one row, and space runs `advanceToEnd` as written (`DroppedAsWritten`); other keys do nothing. |
| Engine.KeyPressed | projectoop/tetris/GameBoardPanel.java:327-340 | `keyPressed`: nothing unless started with a piece; P pauses or resumes; while paused nothing else acts; otherwise `handleKeyPress`. |
| Engine.CorrectedKeyPressed | projectoop/tetris/GameBoardPanel.java:285-290 | The key handling with the hard drop corrected: space, when it reaches `handleKeyPress`, runs `HardDropped`; every other key as in `KeyPressed`. |
| Engine.KeysIgnoredWhenInactive | projectoop/tetris/GameBoardPanel.java:327-340 | Without a started game and an active piece, every key leaves the state unchanged. While paused, every key except P does too. |
| Engine.TickedPlayable | projectoop/tetris/GameBoardPanel.java:87-95 | Every timer tick keeps the invariant and never raises the exception. |
| Engine.KeyPressedPlayable | projectoop/tetris/GameBoardPanel.java:327-350 | Every key other than space never raises the exception. Every key that raises no exception keeps the invariant, including an as-written hard drop that overwrites a block. |
| Engine.FixedPlayableUnlessCrashed | projectoop/tetris/GameBoardPanel.java:267-277 | Fixing a piece that covers its anchor, in a board column, with no clear pending: if the writes raise no exception, the result satisfies the invariant, whatever cells were written over. |
| Engine.KeyHardDropAsWrittenCrashes | projectoop/tetris/GameBoardPanel.java:348 | Space pressed in the first state of a new game whose first piece is a Z, a playable state, raises the exception. |
| Engine.CorrectedKeyPressedPlayable | projectoop/tetris/GameBoardPanel.java:327-350 | With the corrected drop, every key keeps the invariant and none raises the exception. |
| Engine.TickScoreMonotone | projectoop/tetris/GameBoardPanel.java:87-95 | A tick either ends the game, reporting the score the game had, or leaves a score at least as high. |
| Engine.FixedScore | projectoop/tetris/GameBoardPanel.java:267-277 | From any state, fixing either reports game over with the score the game had, or leaves a score at least as high, the exception included. |
| Engine.KeyScoreMonotone | projectoop/tetris/GameBoardPanel.java:327-350 | Every key, the as-written hard drop included, either reports game over with the score the game had or leaves a score at least as high. |
| Panel.GameBoardPanel.constructor | projectoop/tetris/GameBoardPanel.java:42-62 | New board array and piece; the state is the empty board, the NoBlock piece at (0, 0), score 0, all flags false and the timer running at the given interval. |
| Panel.GameBoardPanel.SetResolution | projectoop/tetris/GameBoardPanel.java:64-79 | Only the interval changes, to `Resolution` of the score. |
| Panel.GameBoardPanel.InitBoard | projectoop/tetris/GameBoardPanel.java:81-85 | After the loop, every cell of the array is NoBlock. |
| Panel.GameBoardPanel.CurTetrominoPos | projectoop/tetris/GameBoardPanel.java:130-132 | Returns the tag at index y * 10 + x, which for a board cell is that cell's tag. |
| Panel.GameBoardPanel.IsFullLine | projectoop/tetris/GameBoardPanel.java:214-221 | Returns true exactly when no cell of the row is NoBlock. |
| Panel.GameBoardPanel.ShiftLinesDown | projectoop/tetris/GameBoardPanel.java:223-229 | The in-place copy leaves the array equal to `ShiftedDown` of the old board: rows below kept, each row from fromRow up to 20 gets the old row above, the top row kept. |
| Panel.GameBoardPanel.RemoveFullLines | projectoop/tetris/GameBoardPanel.java:197-212 | The new state is `LinesRemoved` of the old one. Together with `LinesRemovedEffects`: the score grows by the number of rows that were full, and with none full nothing changes. |
| Panel.GameBoardPanel.AtomIsMovable | projectoop/tetris/GameBoardPanel.java:231-249 | Returns true exactly when every cell of the block at (x, y) is on the board and empty. With updatePosition set and success, the piece and anchor become (block, x, y). In every other case no field changes. |
| Panel.GameBoardPanel.IsMovable | projectoop/tetris/GameBoardPanel.java:251-253 | The same test; on success the piece and anchor are committed, and on failure nothing changes. |
| Panel.GameBoardPanel.FindShadowRow | projectoop/tetris/GameBoardPanel.java:157-162 | The search changes no field and returns the shadow's row, which by `LandingRowFits` is where a corrected hard drop lands. |
| Panel.GameBoardPanel.NewTetromino | projectoop/tetris/GameBoardPanel.java:255-265 | State and outcome are `Spawned` of the old state. By `SpawnedOutcome`, a blocked spawn reports game over with the score it had. |
| Panel.GameBoardPanel.GameOver | projectoop/tetris/GameBoardPanel.java:292-305 | The state becomes the interval for the final score followed by `start`. |
| Panel.GameBoardPanel.Start | projectoop/tetris/GameBoardPanel.java:97-107 | The state becomes `Started` of the old one. By `StartedResets`: nothing while paused, otherwise score 0, a cleared board, the interval kept. |
| Panel.GameBoardPanel.Pause | projectoop/tetris/GameBoardPanel.java:109-120 | Only the paused flag and the timer change, as `Paused` says. By `PauseTwiceResumes`, two calls resume. |
| Panel.GameBoardPanel.FixTetromino | projectoop/tetris/GameBoardPanel.java:267-277 | The loop's writes, line removal and spawn give `Fixed` of the old state, including the exception on an index outside the array. |
| Panel.GameBoardPanel.AdvanceOneLine | projectoop/tetris/GameBoardPanel.java:279-283 | State and outcome are `Descended` of the old state; by `DescendedFixesFreeCells` it never raises the exception. |
| Panel.GameBoardPanel.FallAsWritten | projectoop/tetris/GameBoardPanel.java:286-288 | The loop as written leaves the piece and column unchanged and ends at `DropRowAsWritten`: two rows down per successful test. |
| Panel.GameBoardPanel.AdvanceToEnd | projectoop/tetris/GameBoardPanel.java:285-290 | State and outcome are `DroppedAsWritten` of the old state. The Findings lemmas show this can raise the exception or overwrite a block. |
| Panel.GameBoardPanel.Fall | projectoop/tetris/GameBoardPanel.java:286-288 | The corrected loop, one row per test, ends on `LandingRow`, which is the shadow's row. |
| Panel.GameBoardPanel.HardDrop | projectoop/tetris/GameBoardPanel.java:285-290 | The corrected drop, which no key of the program runs: state and outcome are `HardDropped` of the old state. By `HardDropLandsOnShadow`, the piece is fixed on free cells at the shadow's row. |
| Panel.GameBoardPanel.ActionPerformed | projectoop/tetris/GameBoardPanel.java:87-95 | State and outcome are `Ticked` of the old state; by `TickedPlayable` and `TickScoreMonotone`, the invariant holds and the score does not fall. |
| Panel.GameBoardPanel.KeyPressed | projectoop/tetris/GameBoardPanel.java:327-340 | State and outcome are `Engine.KeyPressed` of the old state. By `KeysIgnoredWhenInactive`, keys are ignored unless started with a piece, and only P acts while paused. By `KeyPressedPlayable` and `KeyHardDropAsWrittenCrashes`, only space can raise the exception, and it does from a reachable state. |
| Panel.GameBoardPanel.HandleKeyPress | projectoop/tetris/GameBoardPanel.java:342-350 | State and outcome are `KeyHandled` of the old state: left and right shift, rotation tries the right-turned piece, down runs `AdvanceOneLine`, and space runs `AdvanceToEnd` as written. |

## Left out

- Rendering is not modelled: `paint`, the drawing part of `renderShadow`, `renderGameBoard`, `renderCurrentBlock`, `drawTetromino`, the colour table, `blockWidth`/`blockHeight`, `repaint`, and the status and level strings. They only draw. The shadow's row search is kept as `FindShadowRow`.
- The Swing `Timer` is modelled as the `timerRunning` flag plus the interval field. `setDelay` is the interval update, and nothing about real time is modelled.
- `gameOver`'s dialog and the high-score file (`readMaxScore`, `writeMaxScore`) are file and UI I/O. `gameOver` is kept as its state change: `setResolution`, then `start`.
- `ThreadLocalRandom` is replaced by the draws `pick` and `restartPick`, passed in and limited to [1, 8).
- AWT key codes are replaced by the `Command` datatype. A, D, W and S share their commands with the left, right, up and down arrow keys.
- `GameWindow` and the window reference the panel keeps are not modelled: they are frame setup only.
- Concurrency is not modelled. Every handler runs on the Swing event thread, one at a time.
- Java's 32-bit `int` arithmetic is modelled with unbounded integers. The score and indices in play stay far below 2^31.
- Panel.GameBoardPanel.CurTetrominoPos: it requires the index to lie inside the array. The Java would throw otherwise, but every caller checks that the cell is on the board first.
- Tetrominoes.Tetromino.GetX: it requires an index below 4, as every caller passes one. The same holds for `GetY`.

## Findings

| source | as written | input that shows it | evidently intended | confidence | as-written member | corrected member |
|---|---|---|---|---|---|---|
| projectoop/tetris/GameBoardPanel.java:285-290 | `isMovable` already moves the piece down a row on success, and the loop body decrements `curY` once more, without a test. Each step moves two rows, and the piece can end below the board, where `fixTetromino` computes a negative index. | A new game whose first piece is Z (row 20, empty board), dropped at once: the loop reaches row 0 and the Z's lowest cell maps to index -5. | Move down one row at a time while the piece fits, landing on the shadow's row. | not executed | Engine.KeyHardDropAsWrittenCrashes | Engine.CorrectedKeyPressedPlayable |
| projectoop/tetris/GameBoardPanel.java:285-290 | The second row is never tested, so the piece can be fixed on top of an occupied cell. | A T spawned on row 21 with one block at column 6 of row 18: the loop stops at row 19 and the T's lowest cell overwrites (6, 18). | The piece is fixed only on empty cells, at row 20 on that board. | not executed | Engine.HardDropAsWrittenOverwrites | Engine.HardDropCorrectedOnOneBlockBoard |

# Tetris playfield and piece lifecycle in Dafny

This project models the game engine of `tetris.py`:

- the falling piece (class `Tetromino`): spawn position, clockwise and counter-clockwise
  rotation of its 0/1 shape matrix, and `get_blocks`;
- the playfield and piece lifecycle of class `TetrisGame`: collision checking, moving,
  rotating with wall kicks, hard drop, the ghost piece, locking, full-row detection with
  scoring and levelling, row removal after the clearing animation, hold, spawn and restart;
- the session state machine: `handle_input` and `update` of `PlayingState`, `PausedState`,
  `LineClearingState` and `GameOverState`, and `TetrisGame.handle_input` and
  `TetrisGame.update`.

Layout:

- `config.dfy` (module `Config`): the constants of `GameConfig`, the line scores, and the
  level and fall-interval formulas.
- `options.dfy` (module `Options`): an `Option` type for the hold slot.
- `tetromino.dfy` (module `Tetromino`): piece types, spawn shapes and the piece value. It also
  holds the rotations and `get_blocks` as functions, with their algebraic properties.
- `board.dfy` (module `Board`): the grid of optional colours. It holds the collision
  predicate `Fits` (is_valid_position), the locking write `Stamp`, and full-row detection.
  It holds row removal twice: as the code does it (`RemoveRowsAsWritten`) and as intended
  (`RemoveRows`). It also holds the kick search and the drop distance.
- `engine.dfy` (module `Engine`): all fields of `TetrisGame` as one value `EngineState`.
  One function per operation and per state handler gives the state after the call.
- `engine_lemmas.dfy` (module `EngineLemmas`): the properties of those functions.
- `game.dfy` (module `Game`): class `TetrisGame`, whose fields are updated in place by
  methods with the source's loops. Each public operation (spawn, move, rotate, hard drop,
  lock, row removal, hold, restart, the state handlers, `handle_input` and `update`) is
  proved to produce `Engine.X(old(Model()))`, where `Model()` packs the fields into an
  `EngineState`. The helpers (`IsValidPosition`, `DropToFloor`, `GetGhostPiece`,
  `StampPiece`, `FindFullRows`, `AddLines`, `ResetCounters`, `ResetBoard`) have contracts of
  their own, stated on the piece, grid or counters they compute or change.

The piece values (`Piece`) are immutable datatypes. `Tetromino.copy` is therefore the value
itself, and `move_piece` and `rotate_piece` replace the `current` field. Randomness enters
only through `get_random_piece`. Every operation that can spawn takes the drawn type as a
parameter: `pick` for one draw, and `first` and `second` for the two draws of the
constructor and of `reset_game`. Timers are integer milliseconds.

Two behaviours of the code are reproduced rather than hidden:

- `LineClearingState.update` switches to `PlayingState` even when the spawn inside
  `finish_clearing_animation` has just ended the game (lemma
  `EngineLemmas.ClearingEndsInPlayingEvenWhenOver`).
- `TetrisGame.handle_input` does not look at `game_over` (lemma
  `EngineLemmas.InputIgnoresGameOverFlag`).

These two combine into a freeze. After such a game over, the player can still hard-drop in
`PlayingState`, and if that fills a row the game is in `LineClearingState` with `game_over`
set. From there `update` never runs and no key is handled, restart included (lemma
`EngineLemmas.OverDuringClearingIsStuck`).

## Model

| member | source | states |
|---|---|---|
| Config.LineScore | tetris.py:56 | a clear scores points exactly for 1 to 4 rows; any other count scores 0 |
| Config.LevelFor | tetris.py:503 | the level for a line total is at least 1, and the total lies in that level's band of LINES_PER_LEVEL lines |
| Config.FallSpeedFor | tetris.py:506-510 | the fall interval is never below MIN_FALL_SPEED and, from level 1 on, never above INITIAL_FALL_SPEED |
| Config.LevelForMonotone | tetris.py:503 | more cleared lines never give a lower level |
| Config.LevelForStep | tetris.py:503 | one clear of at most LINES_PER_LEVEL rows raises the level by at most one |
| Config.FallSpeedMonotone | tetris.py:506-510 | a higher level never falls more slowly |
| Tetromino.NewPiece | tetris.py:277-293 | a new piece has its type, the spawn shape of that type, row 0, a rectangular shape with a block, lies between the walls, and is centred: the free columns on its left equal those on its right or exceed them by one |
| Tetromino.RotateClockwise | tetris.py:295-297 | a clockwise turn of an r x c matrix is a c x r matrix |
| Tetromino.RotateCounterclockwise | tetris.py:299-301 | a counter-clockwise turn of an r x c matrix is a c x r matrix |
| Tetromino.CounterclockwiseUndoesClockwise | tetris.py:295-301 | a counter-clockwise turn after a clockwise one gives back the original matrix |
| Tetromino.ClockwiseUndoesCounterclockwise | tetris.py:295-301 | a clockwise turn after a counter-clockwise one gives back the original matrix |
| Tetromino.HalfTurn | tetris.py:295-297 | two clockwise turns map cell (i, j) to (R-1-i, C-1-j) and keep the dimensions |
| Tetromino.FourClockwiseTurnsRestore | tetris.py:295-297 | four clockwise turns give back the original matrix |
| Tetromino.RotateClockwiseKeepsBlockCount | tetris.py:295-297 | a clockwise turn keeps the number of filled cells |
| Tetromino.RotatedClockwise | tetris.py:295-297 | turning a piece keeps its type and anchor, and a piece with a block keeps having one |
| Tetromino.RotatedCounterclockwise | tetris.py:299-301 | turning a piece back keeps type and anchor, and a clockwise turn then restores it |
| Tetromino.BlocksExact | tetris.py:303-310 | get_blocks lists exactly the board cells under the filled cells of the shape |
| Board.EmptyGrid | tetris.py:346-348 | the new grid has GRID_HEIGHT rows of GRID_WIDTH empty cells |
| Board.FitsByBlocks | tetris.py:395-417 | a position is valid exactly when every shifted block of get_blocks is between the walls, above the floor, and on a free cell or above row 0 |
| Board.FitsShift | tetris.py:419-432 | testing a moved piece is the same as testing the unmoved piece with the offset |
| Board.FittingIsInBounds | tetris.py:395-417 | a piece at a valid position lies between the walls and above the floor |
| Board.NewPieceInBounds | tetris.py:277-293 | a freshly spawned piece is rectangular, has a block and lies inside the walls |
| Board.FitsAboveFloor | tetris.py:450-455 | a piece that can move down by dy is above the floor at that offset, so dropping ends |
| Board.Stamp | tetris.py:466-470 | locking keeps the grid GRID_HEIGHT x GRID_WIDTH |
| Board.StampWritesBlocks | tetris.py:466-470 | a visible cell takes the piece colour exactly when get_blocks lists it, and otherwise keeps its value |
| Board.StampExact | tetris.py:466-470 | lock_piece's loop writes the colour into exactly the listed visible cells and leaves every other cell unchanged |
| Board.FullRowsBelow | tetris.py:486-488 | the scan of rows 0 .. n-1 lists, in ascending order, exactly the fully occupied ones |
| Board.FullRows | tetris.py:484-488 | lines_to_clear is strictly ascending, holds exactly the full rows, and has at most GRID_HEIGHT entries |
| Board.AscendingUnique | tetris.py:484-488 | an ascending list of rows is determined by its members, so the scan's result is unique |
| Board.RemoveRowsAsWritten | tetris.py:515-520 | the code's row removal keeps the grid GRID_HEIGHT x GRID_WIDTH |
| Board.RemoveRows | tetris.py:515-520 | the intended row removal keeps the grid GRID_HEIGHT x GRID_WIDTH |
| Board.DeleteRowsKept | tetris.py:517-518 | deleting ascending rows, highest first, keeps exactly the other rows in order |
| Board.RemoveRowsExact | tetris.py:515-520 | the intended removal puts as many empty rows on top as it removed, then exactly the unlisted rows in order |
| Board.SingleRowRemovalExact | tetris.py:515-520 | for one recorded row the code deletes exactly that row, puts an empty row on top and keeps every other row in order |
| Board.OneRowAgrees | tetris.py:515-520 | for one row the code as written and the intended removal give the same grid |
| Board.BottomTwoRowsAsWritten | tetris.py:517-519 | asked to remove rows 18 and 19, the code removes rows 19 and 17 and keeps row 18 at the bottom |
| Board.BottomTwoRowsIntended | tetris.py:515-520 | the intended removal of rows 18 and 19 leaves rows 0 .. 17 under two empty rows |
| Board.BottomTwoFull | tetris.py:484-488 | there is a grid whose full rows are exactly 18 and 19 |
| Board.TwoRowClearDeviates | tetris.py:515-520 | when rows 18 and 19 are full, the code leaves a full row at the bottom; the intended removal does not |
| Board.FirstFitFrom | tetris.py:440-445 | the search from index i returns the first index from i on whose offset fits, or none exactly when no offset from i on fits |
| Board.FirstFit | tetris.py:440-445 | the kick search returns the first offset at which the turned piece fits, or none exactly when no offset fits |
| Board.DropDistance | tetris.py:450-464 | every row down to the landing row fits and the next one does not |
| Board.DropDistanceStep | tetris.py:453-454 | before the landing row the move down succeeds, at it the move fails |
| EngineLemmas.InBoundsFitsEmpty | tetris.py:395-417 | a piece inside the walls and above the floor fits into the empty grid |
| EngineLemmas.SpawnValid | tetris.py:381-393 | spawning keeps the state invariant (grid shape, piece in bounds, recorded rows, level and fall interval) |
| EngineLemmas.SpawnGameOver | tetris.py:381-393 | spawn makes next the current piece, takes the drawn type as next, re-enables hold, and sets game_over (and GameOverState) exactly when the new piece does not fit |
| EngineLemmas.MoveExact | tetris.py:419-432 | move_piece moves by exactly (dx, dy) when that fits and then the piece fits, otherwise nothing changes |
| EngineLemmas.MoveValid | tetris.py:419-432 | moving keeps the state invariant |
| EngineLemmas.RotateFrame | tetris.py:434-448 | rotate_piece changes only the piece, keeps its type, and changes nothing when no kick fits |
| EngineLemmas.RotateOutcome | tetris.py:434-448 | if the turned piece fits at some kick offset, rotate_piece replaces the piece by the turned piece moved by the first fitting offset, which fits; otherwise nothing changes |
| EngineLemmas.RotateFitting | tetris.py:440-445 | when some kick offset fits, the rotated state holds the turned piece moved by the first fitting offset, and that piece fits |
| EngineLemmas.RotateKicked | tetris.py:440-445 | when offset k is the first that fits, rotate_piece moves the turned piece by offset k and changes nothing else |
| EngineLemmas.KickFits | tetris.py:440-445 | the offset the kick search returns is the first that fits, and the piece moved by it fits in place |
| EngineLemmas.RotateValid | tetris.py:434-448 | rotating keeps the state invariant |
| EngineLemmas.GhostLands | tetris.py:459-464 | the ghost has the current type, shape and column, lies at or below it, cannot move down, and fits at every row on the way |
| EngineLemmas.GhostOk | tetris.py:459-464 | the ghost piece lies inside the walls and above the floor |
| EngineLemmas.ClearLinesOutcome | tetris.py:476-513 | without full rows nothing changes; otherwise exactly the full rows are recorded, lines and score (at the old level) grow, level and interval follow the line total, and the state is LineClearing |
| EngineLemmas.ClearLinesLevelStep | tetris.py:502-510 | a clear of at most LINES_PER_LEVEL rows raises the level by at most one |
| EngineLemmas.ClearLinesValid | tetris.py:476-513 | clear_lines keeps the state invariant |
| EngineLemmas.LockValid | tetris.py:466-474 | locking keeps the state invariant |
| EngineLemmas.LockOutcome | tetris.py:466-474 | lock writes the colour into exactly the piece's visible blocks, and spawns at once exactly when no row is full; otherwise the piece waits in LineClearing |
| EngineLemmas.HardDropLandsOnGhost | tetris.py:450-457 | hard_drop locks the piece exactly where the ghost piece is: the grid becomes the ghost stamped into it, and the score grows by exactly HARD_DROP_BONUS per row fallen plus the line score times the level for the full rows of that grid, if any |
| EngineLemmas.DroppedValid | tetris.py:450-455 | the drop loop keeps the state invariant |
| EngineLemmas.HardDropValid | tetris.py:450-457 | hard_drop keeps the state invariant |
| EngineLemmas.FinishClearingValid | tetris.py:515-522 | finishing the clear keeps the grid GRID_HEIGHT x GRID_WIDTH and the rest of the invariant |
| EngineLemmas.FinishClearingOneRow | tetris.py:515-522 | with one recorded row, the row is removed exactly, the record is emptied and the next piece spawns |
| EngineLemmas.FinishClearingSpawns | tetris.py:515-522 | with any number of recorded rows, the record is emptied and the next piece spawns with a fresh next type, which re-enables holding |
| EngineLemmas.HoldOutcome | tetris.py:524-538 | a hold stores the current type; it spawns the next piece when the slot was empty, and swaps in a fresh spawn-position piece of the held type otherwise; holding is then used up |
| EngineLemmas.HoldTwiceIsHoldOnce | tetris.py:524-538 | a second hold right after the first (back to back) changes nothing |
| EngineLemmas.HoldOnlyWhenAllowed | tetris.py:524-527 | hold leaves the state unchanged exactly when holding is used up |
| EngineLemmas.GravityKeepsHoldUsedUp | tetris.py:168-175 | a gravity tick that does not lock the piece (the interval has not run out, or the piece can fall one row) keeps a used-up hold used up, so a later hold still changes nothing |
| EngineLemmas.InputKeepsHoldUsedUp | tetris.py:143-187 | once holding is used up, every key other than SPACE and C, whether playing or paused, keeps it used up, so a later hold still changes nothing |
| EngineLemmas.HoldThenInputThenHold | tetris.py:524-538 | after a hold and then any key other than SPACE and C, a second hold changes nothing |
| EngineLemmas.HoldValid | tetris.py:524-538 | holding keeps the state invariant |
| EngineLemmas.ResetOutcome | tetris.py:697-713 | restart gives an empty board, zero counters, level 1, an empty hold and Playing, with `first` in play and `second` next |
| EngineLemmas.InitialOutcome | tetris.py:324-375 | a new game satisfies the invariant, is Playing, not over, scores 0, and has `first` in play and `second` next |
| EngineLemmas.PlayingInputValid | tetris.py:145-166 | every key in PlayingState keeps the state invariant |
| EngineLemmas.HandleInputValid | tetris.py:715-718 | every event keeps the state invariant |
| EngineLemmas.PlayingUpdateValid | tetris.py:168-175 | gravity keeps the state invariant |
| EngineLemmas.LineClearingUpdateValid | tetris.py:218-223 | the clearing timer keeps the state invariant |
| EngineLemmas.UpdateValid | tetris.py:720-725 | every update keeps the state invariant |
| EngineLemmas.ClearingEndsInPlayingEvenWhenOver | tetris.py:218-223 | when the animation ends the rows go, the record empties and the state is Playing even when the spawn set game_over |
| EngineLemmas.SpawnIgnoresFlag | tetris.py:381-393 | spawn only ever adds to game_over; otherwise it does not depend on it |
| EngineLemmas.LockIgnoresFlag | tetris.py:466-474 | locking does not depend on game_over apart from keeping it set |
| EngineLemmas.HardDropIgnoresFlag | tetris.py:450-457 | hard_drop does not depend on game_over apart from keeping it set |
| EngineLemmas.HoldIgnoresFlag | tetris.py:524-538 | hold does not depend on game_over apart from keeping it set |
| EngineLemmas.PlayingInputIgnoresFlag | tetris.py:145-166 | PlayingState's keys act the same whether or not game_over is set, apart from the flag |
| EngineLemmas.PlayingHandleIgnoresFlag | tetris.py:715-718 | in PlayingState a key press has the same effect with or without game_over |
| EngineLemmas.InputIgnoresGameOverFlag | tetris.py:715-718 | outside GameOverState every event has the same effect whether or not the game is over |
| EngineLemmas.OverDuringClearingIsStuck | tetris.py:215-223 | with game_over set in LineClearingState, update and every input leave the state unchanged |
| EngineLemmas.LockNoLoss | tetris.py:466-513 | locking never lowers score, level or line total |
| EngineLemmas.PlayingUpdateNoLoss | tetris.py:168-175 | gravity never lowers score, level or line total |
| EngineLemmas.LineClearingUpdateNoLoss | tetris.py:218-223 | the clearing timer and row removal keep score, level and line total |
| EngineLemmas.UpdateNoLoss | tetris.py:720-725 | update never lowers score, level or line total |
| EngineLemmas.HardDropNoLoss | tetris.py:450-457 | hard_drop never lowers score, level or line total |
| EngineLemmas.PlayingInputNoLoss | tetris.py:145-166 | no key in PlayingState lowers score, level or line total |
| EngineLemmas.HandleInputNoLoss | tetris.py:715-718 | only restart lowers score, level or line total |
| Game.TetrisGame.constructor | tetris.py:324-375 | a new game object holds the initial state, with `first` spawned and `second` next |
| Game.TetrisGame.IsValidPosition | tetris.py:395-417 | the block-by-block check answers exactly whether the shifted piece fits |
| Game.TetrisGame.SpawnNewPiece | tetris.py:381-393 | the fields become the state after a spawn |
| Game.TetrisGame.MovePiece | tetris.py:419-432 | reports whether the shifted piece fits, and the fields become the state after the move |
| Game.TetrisGame.RotatePiece | tetris.py:434-448 | the kick loop leaves the fields in the state after the rotation with the first fitting kick |
| Game.TetrisGame.HardDrop | tetris.py:450-457 | the fields become the state after dropping, scoring and locking |
| Game.TetrisGame.DropToFloor | tetris.py:452-454 | the move loop counts exactly the drop distance and leaves the piece that many rows lower |
| Game.TetrisGame.GetGhostPiece | tetris.py:459-464 | the loop returns the ghost piece and changes nothing |
| Game.TetrisGame.LockPiece | tetris.py:466-474 | the fields become the state after locking |
| Game.TetrisGame.StampPiece | tetris.py:468-470 | the block loop writes the piece into the grid |
| Game.TetrisGame.FindFullRows | tetris.py:484-488 | the row scan returns an ascending list of exactly the full rows |
| Game.TetrisGame.ClearLines | tetris.py:476-513 | the fields become the state after clear_lines |
| Game.TetrisGame.AddLines | tetris.py:494-510 | adds the rows to the line total and their points at the old level to the score, then raises level and fall interval if the total reaches a new level |
| Game.TetrisGame.FinishClearingAnimation | tetris.py:515-522 | the reversed delete-and-insert loop leaves the fields in the state after finish_clearing_animation |
| Game.TetrisGame.HoldCurrentPiece | tetris.py:524-538 | the fields become the state after a hold |
| Game.TetrisGame.ResetGame | tetris.py:697-713 | the fields become the restarted state, which satisfies the invariant |
| Game.TetrisGame.ResetCounters | tetris.py:702-708 | score, level, lines, game_over, interval, record and timer take their start values |
| Game.TetrisGame.ResetBoard | tetris.py:699-712 | the grid is empty, next is `first`, hold is empty and enabled, and the state is Playing |
| Game.TetrisGame.PlayingHandleInput | tetris.py:145-166 | the fields become the state after the key, and the invariant holds |
| Game.TetrisGame.PausedHandleInput | tetris.py:184-187 | only P changes anything, back to Playing |
| Game.TetrisGame.GameOverHandleInput | tetris.py:232-236 | only R changes anything: a restart, then Playing |
| Game.TetrisGame.HandleInput | tetris.py:715-718 | a key press is handled by the current state and the invariant holds |
| Game.TetrisGame.PlayingUpdate | tetris.py:168-175 | the fields become the state after gravity, and the invariant holds |
| Game.TetrisGame.LineClearingUpdate | tetris.py:218-223 | the fields become the state after the clearing timer |
| Game.TetrisGame.Update | tetris.py:720-725 | nothing happens once game_over is set, otherwise the current state's update, and the invariant holds |

## Left out

- Pygame set-up, the window, clock and fonts, and the event loop `run` and `main`, including
  the ESC and QUIT handling there: these are I/O.
- All drawing (`draw*` methods and the states' `draw`), including the float fade alpha of
  `draw_grid`: rendering only.
- `get_random_piece`: `random.choice` is replaced by the drawn type passed in as `pick`,
  `first` or `second`.
- Colours are tags (`Color`), not RGB tuples. Keys are the abstract `Key` type, and every
  event other than a key press is `OtherEvent`.
- `next_piece` and `hold_piece` are stored as their types, because the code always builds
  them as fresh spawn-position pieces. The constructor's `current_piece = None` is replaced
  by a placeholder piece that the first spawn overwrites at once.
- `clear_animation_duration` is not a field: it is always CLEAR_ANIMATION_DURATION.
- The grid is a `seq` field that the methods reassign, not a list of lists mutated in place.
  The cell writes of `lock_piece` and the `del`/`insert` of `finish_clearing_animation` are
  modelled as sequence updates, so aliasing between rows is not modelled. The code creates
  none.
- The `config` parameter of `Tetromino` and `TetrisGame` (tetris.py:277, 286-287, 324-337):
  only the default `GameConfig` is modelled, as the constants of module `Config`. Results
  that depend on its values: `Board.BottomTwoRowsAsWritten`, `Board.BottomTwoRowsIntended`
  and `Board.TwoRowClearDeviates` use a grid of height 20; `Tetromino.NewPiece` lies between
  the walls only because the grid is at least 4 columns wide; `Config.LevelForStep` relies
  on 10 lines per level.
- `fall_time` is a natural number: `update` is only ever given non-negative elapsed times.
- Game.TetrisGame.LineClearingUpdate: its contract does not repeat the invariant, which
  follows from `EngineLemmas.LineClearingUpdateValid`.

## Findings

| source | as written | input that shows it | evidently intended | confidence | as-written member | corrected member |
|---|---|---|---|---|---|---|
| tetris.py:517-520 | for each recorded row, highest first, `del grid[y]` then `grid.insert(0, empty)`; every insert shifts the rows that are still to be deleted down by one | a grid whose full rows are 18 and 19: the code deletes rows 19 and 17, so the full row 18 stays at the bottom and the unfull row 17 is lost | delete exactly the recorded rows and put as many empty rows on top | not executed | Board.TwoRowClearDeviates | Board.RemoveRowsExact |

The engine (`Engine.FinishClearing`) and `Game.TetrisGame.FinishClearingAnimation` follow the
code as written, so the model shows what the program does. The corrected removal
`Board.RemoveRows` is proved exact for any set of rows (`Board.RemoveRowsExact`). It agrees
with the code whenever one row is cleared (`Board.OneRowAgrees`), which is the only case
the code handles correctly.

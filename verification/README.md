# Falling-block engine of script.js, in Dafny

This project models the game engine of `script.js`, a browser Tetris. The
page's globals are the board `gridState` (20 rows of 10 cells, each `0` or a
colour), the `tetrominoes` catalog (seven 0/1 shape matrices with colours),
the active piece `currentPiece` and its origin `currentPosition`, and the
counters `score`, `lives`, `timer` and `isPaused`. The engine's functions
change these globals in response to clock ticks and key presses. The DOM
rendering around them is not modelled.

The model has five modules:

- `Shapes` (shapes.dfy): shape matrices, the catalog as it starts out, and the
  clockwise rotation `rotatePiece` computes. It proves the cell formula of the
  rotation, that four rotations give back the matrix, and that a rotation
  keeps the number of occupied cells.
- `Grid` (grid.dfy): the board, `checkCollision` (as the recursive
  `some`/`some` it is, with a closed-form characterisation), the board after
  `lockPiece`, and the row at which `hardDrop`'s loop stops.
- `Lines` (lines.dfy): the single bottom-to-top pass of `clearLines`, as
  written, and what it does to rows and to the number of filled cells.
- `Rules` (rules.dfy): the whole state as one value, `State`, and for every
  operation the state it leaves (`AfterMove`, `AfterRotate`, ...). Two
  invariants are proved. `Settled` says the board is 20 by 10, the catalog
  holds seven well-shaped matrices, the score is a non-negative multiple of
  100, lives are at 3 and the timer is non-negative. `Playable` adds that the
  active piece lies on the board over empty cells only. `AfterLock` and
  `AfterClear` are intermediate steps: after a lock the locked piece still
  counts as current and covers filled cells, so these two keep `Settled`
  only. Every other step function (`Initial`, `AfterRestart`,
  `AfterGameOver`, `AfterSpawn`, `AfterMove`, `AfterRotate`,
  `AfterHardDrop`, `AfterTick`, `AfterPause`, `AfterKey`) ends in a
  `Playable` state. The lemmas of this module state what each operation
  does.
- `Engine` (engine.dfy): the class `Game`, whose fields are the globals. Its
  methods do what the functions of `script.js` do, step by step: the loops
  of `lockPiece`, `clearLines` and `hardDrop`, and the in-place rewrite of
  the catalog entry by `rotatePiece`. Every method except `LockRow` is proved
  to end in the state the matching `Rules` function computes. `LockPiece`
  and `ClearLines` run between a piece's lock and the next spawn. They
  require `Valid()` and `Settled` respectively, and do not promise `Valid()`
  afterwards. `LockRow`, the inner loop of `lockPiece`, ends in the board
  `LockedUpTo` describes: every occupied cell up to the end of its shape row
  is painted. The other methods end in `Valid()`, which is `Playable` of the
  fields.

`Math.random` is replaced by parameters. `draw` is the index the spawn picks.
`redraw` is the index the second spawn picks when the first one collides and
`gameOver` restarts the game. That second spawn is on an empty board and
provably never collides, so two indices are always enough.

### Behaviours of the code worth knowing

- Rows above the board collide. There `gridState[y]?.[x]` is `undefined`,
  and `undefined !== 0` holds (script.js:130). `Grid.Blocked` treats every
  row index below 0 as blocked.
- A row that moves into a cleared index is not checked again in the same
  pass: the loop decrements `row` after every removal (script.js:152-157).
  `Lines.AdjacentFullRows` shows that a full row can survive the pass.
- Every key is dropped while paused, the space bar included
  (script.js:187). Only the Continue button, which calls `pauseGame`,
  resumes the game (script.js:229-231).
- `currentPiece` is the catalog entry itself (script.js:55), and
  `rotatePiece` assigns the rotated matrix to its `shape` (script.js:115).
  A rotation therefore stays in the catalog for every later spawn of that
  template.
- Nothing decrements `lives`, and `restartGame` sets it back to 3, so it
  stays 3 throughout.
- `restartGame` does not reset `isPaused` (script.js:234-245).

## Model

| member | source | states |
|---|---|---|
| Shapes.Catalog | script.js:18-24 | seven entries (one per template): the 0/1 matrices I, O, T, Z, S, J, L in catalog order, as every spawn reads them before any rotation |
| Shapes.CatalogWellShaped | script.js:17-25 | the catalog has seven entries, each a rectangle of at most 4 by 4 cells with an occupied cell |
| Shapes.ColorOf | script.js:18-24 | the colour of each template, in catalog order: cyan, yellow, purple, red, green, blue, orange |
| Shapes.Rotated | script.js:111-113 | the rotation of a rectangular matrix is rectangular, with rows and columns swapped |
| Shapes.RotatedCell | script.js:111-113 | cell (i, j) of the rotation is cell (rows - 1 - j, i) of the shape: a clockwise turn |
| Shapes.RotatedTwice | script.js:111-113 | two rotations turn the matrix upside down and mirror it |
| Shapes.RotateFourTimes | script.js:111-113 | four rotations give back the matrix they started from |
| Shapes.RotatedWellShaped | script.js:111-113 | a well-shaped matrix stays well shaped when rotated, and its dimensions swap |
| Shapes.RotatedCellSet | script.js:111-113 | the occupied cells of the rotation are exactly the turned occupied cells of the shape |
| Shapes.RotationKeepsCellCount | script.js:111-113 | rotation keeps the number of occupied cells |
| Grid.EmptyRow | script.js:155 | `Array(10).fill(0)`: ten empty cells |
| Grid.EmptyBoard | script.js:236 | `Array.from({ length: 20 }, () => Array(10).fill(0))`: twenty empty rows; `EmptyBoardIsEmpty` states its shape and cells |
| Grid.EmptyBoardIsEmpty | script.js:30 | the initial board is 20 by 10 and all of its cells are 0 |
| Grid.Blocked | script.js:130 | the test `x < 0 \|\| x >= 10 \|\| y >= 20 \|\| gridState[y]?.[x] !== 0`, with every row index below 0 blocked because the lookup there is undefined |
| Grid.Collides | script.js:123-134 | `checkCollision`: the nested `some` over the shape's rows and cells, written as the recursions `HitsFrom` and `RowHitsFrom`; `CollidesIff` gives its closed form |
| Grid.CollidesIff | script.js:123-134 | `checkCollision` holds exactly when some occupied cell lands left of column 0, right of column 9, below row 19, above row 0, or on a non-zero cell |
| Grid.NotCollidingFits | script.js:123-134 | a piece that does not collide lies on the board, over empty cells only |
| Grid.SpawnFitsEmptyBoard | script.js:56-57 | on the empty board a piece at column 4, row 0 never collides |
| Grid.Locked | script.js:137-147 | the board after the lock is still 20 by 10 |
| Grid.LockedCells | script.js:137-147 | the lock paints exactly the cells under the piece's occupied cells, which were all empty, and keeps every other cell |
| Grid.DropFrom | script.js:218-221 | the row `hardDrop` locks at: step down while the piece does not collide, then step back one row; `DropLanding` states where it stops |
| Grid.NotCollidingAboveFloor | script.js:123-134 | a piece that does not collide has its origin above row 20 |
| Grid.DropLanding | script.js:217-221 | from a non-colliding start, the drop loop runs at most 20 times and stops at the last row without collision, right above a row with one |
| Lines.Full | script.js:153 | `gridState[row].every(cell => cell !== 0)`: no cell of the row is empty |
| Lines.RemoveRow | script.js:154-155 | splice of row r and unshift of an empty row leave a 20 by 10 board |
| Lines.RemoveRowShifts | script.js:154-155 | after the removal, row 0 is empty, the rows above r move down by one, and the rows below r stay |
| Lines.ClearScan | script.js:152-158 | the pass keeps the board 20 by 10 and counts at most one line per row it scans |
| Lines.ClearAll | script.js:152-158 | the whole pass from row 19 up to row 0 leaves a 20 by 10 board and counts at most 20 lines |
| Lines.ScanKeepsRowsBelow | script.js:152-158 | the pass never changes the rows below the index it starts from |
| Lines.ScanSkipsRowsNotFull | script.js:152-158 | rows that are not full are passed over without change |
| Lines.NoFullRowUnchanged | script.js:152-158 | with no full row, the board is unchanged and no line is counted |
| Lines.SingleFullRow | script.js:152-158 | with exactly one full row, the pass removes it, moves the rows above it down and counts one line |
| Lines.AdjacentFullRows | script.js:152-157 | of two adjacent full rows, the upper one moves into the cleared index and is still full when the pass ends |
| Lines.RemoveFullRowCount | script.js:154-155 | removing a full row takes exactly 10 filled cells off the board |
| Lines.ClearScanCount | script.js:152-158 | the filled cells left plus 10 per counted line are the filled cells the pass started with |
| Rules.Place | script.js:54-56 | `spawnPiece` before its collision test: the drawn entry becomes current at column 4, row 0, and nothing else changes |
| Rules.Initial | script.js:10-30 | the state after the page loads satisfies the invariant |
| Rules.AfterRestart | script.js:234-245 | `restartGame` ends in a state that satisfies the invariant, whatever the state before |
| Rules.AfterGameOver | script.js:258-263 | `gameOver` ends in a state that satisfies the invariant |
| Rules.AfterSpawn | script.js:53-61 | `spawnPiece`, with its game-over path, ends with an active piece on the board over empty cells |
| Rules.AfterLock | script.js:137-147 | after `lockPiece` the board, catalog and counters are still `Settled` (the locked piece itself no longer fits, so not `Playable`) |
| Rules.AfterClear | script.js:150-164 | `clearLines` keeps the state `Settled`: the board 20 by 10 and the score a non-negative multiple of 100 |
| Rules.AfterMove | script.js:92-106 | `movePiece` keeps the invariant |
| Rules.AfterRotate | script.js:109-120 | `rotatePiece` keeps the invariant |
| Rules.AfterHardDrop | script.js:217-226 | `hardDrop` keeps the invariant |
| Rules.AfterTick | script.js:177-183 | `updateGame` keeps the invariant |
| Rules.AfterPause | script.js:211-214 | `pauseGame` keeps the invariant |
| Rules.AfterKey | script.js:186-208 | `handleKeyPress` keeps the invariant |
| Rules.MoveAccepted | script.js:94-96 | a move that does not collide shifts the origin by exactly (dx, dy) and changes nothing else |
| Rules.MoveRejectedSideways | script.js:96-99 | a rejected move with dy other than 1 restores the origin and has no other effect |
| Rules.MoveRejectedDown | script.js:96-103 | a rejected move with dy = 1 locks at the restored origin, clears lines, adds 100 per line and spawns at (4, 0), or restarts if that spawn collides |
| Rules.RotateAccepted | script.js:114-116 | an accepted rotation replaces the active catalog entry's shape by its rotation and changes nothing else |
| Rules.RotateRejected | script.js:116-118 | a rotation that collides leaves the state, and so the shape, as it was |
| Rules.RotateKeepsTheRest | script.js:109-120 | rotation changes only the active catalog entry, and keeps its number of cells |
| Rules.TwoRotations | script.js:109-120 | two accepted rotations turn the active shape upside down and change nothing else |
| Rules.FourRotationsRestore | script.js:109-120 | when the first three rotations are accepted, four rotations give back the original state |
| Rules.ClearScores | script.js:159-160 | `clearLines` adds exactly 100 per removed row; with no full row it changes nothing |
| Rules.HardDropIsRepeatedSoftDrop | script.js:217-226 | a hard drop is a rejected move down when the row below collides, else a hard drop from one row lower |
| Rules.TickWhilePaused | script.js:177-178 | while paused, a tick changes nothing |
| Rules.TickCountsOne | script.js:177-183 | an unpaused tick is one gravity step followed by adding exactly 1 to the timer |
| Rules.TickIntoGameOver | script.js:177-183 | a tick whose gravity step ends in game over leaves the timer at 1, an empty board and score 0 |
| Rules.KeyWhilePaused | script.js:186-187 | while paused, every key, the space bar included, changes nothing |
| Rules.SpacePausesContinueResumes | script.js:229-231 | the space bar pauses a running game, and `continueGame` resumes it in the same state |
| Rules.RestartResets | script.js:234-245 | a restart leaves an empty board, score 0, lives 3, timer 0 and a piece at (4, 0), keeps `isPaused` and the catalog, and restarting again gives the same state |
| Rules.SpawnOutcomes | script.js:53-61 | a spawn that collides always ends in the restart state; one that does not only places the piece |
| Engine.Game.constructor | script.js:10-30 | the fresh game is the initial state and satisfies the invariant |
| Engine.Game.InitGame | script.js:33-40 | `initGame` on the empty board places the drawn piece at (4, 0) |
| Engine.Game.SpawnPiece | script.js:53-61 | the method ends in the state of `AfterSpawn` |
| Engine.Game.GameOver | script.js:258-263 | the method ends in the state of `AfterGameOver` |
| Engine.Game.RestartGame | script.js:234-245 | the method ends in the state of `AfterRestart` |
| Engine.Game.MovePiece | script.js:92-106 | the method ends in the state of `AfterMove` |
| Engine.Game.RotatePiece | script.js:109-120 | rewriting the catalog entry in place ends in the state of `AfterRotate` |
| Engine.Game.LockPiece | script.js:137-147 | the nested cell loop ends in the state of `AfterLock` |
| Engine.Game.LockRow | script.js:139-145 | the inner loop paints the occupied cells of one shape row |
| Engine.Game.ClearLines | script.js:150-164 | the splice/unshift loop and the score update end in the state of `AfterClear` |
| Engine.Game.HardDrop | script.js:217-226 | the drop loop terminates and the method ends in the state of `AfterHardDrop` |
| Engine.Game.UpdateGame | script.js:177-183 | the method ends in the state of `AfterTick` |
| Engine.Game.HandleKeyPress | script.js:186-208 | the method ends in the state of `AfterKey` |
| Engine.Game.PauseGame | script.js:211-214 | the method flips `isPaused` and changes nothing else |
| Engine.Game.ContinueGame | script.js:229-231 | the Continue button flips `isPaused` back, as `pauseGame` does |

## Left out

- DOM rendering: `createGrid`, `drawPiece`, `clearPiece`, `updateGrid`, `updateScore`, `updateLives`, `resetGridStyles`, the pause-menu class toggle and the writes to `timerElement`. None of them is read back into the state.
- Clock scheduling: `setInterval` and `clearInterval`. A tick is a call of `UpdateGame`.
- Event wiring: `addEventListener`. Key strings become the `Key` datatype, and every other key is `OtherKey`. The Continue and Restart buttons are calls of `ContinueGame` and `RestartGame`.
- The blocking `alert` in `gameOver`, which has no effect on the state.
- `Math.random` and `Math.floor`: the index is a parameter (`draw`, and `redraw` for the spawn after a game over).
- Colour strings: colours are an enumeration with one value per template, and `0` is `Empty`.

# Falling-block game engine in Dafny

This project models the game-state engine of a browser Tetris game (`my_tetris.js`) and proves
properties of it. The engine has four parts:

- **Catalog** (`catalog.dfy`). The seven tetromino types I, O, T, S, Z, J and L, each with its colour and
  its 0/1 spawn matrix. It also holds the board size of 10 columns by 20 rows.
- **Tetromino** (`tetromino.dfy`). A piece is an immutable value: type, shape matrix, colour and the
  top-left anchor (column `x`, row `y`). It is spawned at column `floor(10/2) - 1 = 4`, row 0. Rotation
  turns the matrix clockwise and is never validated. `Shift` moves the anchor.
- **Board** (`board.dfy`). The grid is 20 rows of 10 cells, and each cell is `Empty` or `Filled(colour)`.
  This file holds the single legality test `IsValidMove`, written as the two nested `every` loops of the
  source. It also holds translation that rejects illegal targets (`MoveTetromino`) and the hard-drop
  loop (`HardDrop`, specified by `Dropped`). Finally it has the specifications of locking (`Placed`)
  and of line clearing (`Kept`, `FullCount`, `Cleared`).
- **Session** (`session.dfy`). A `Session` object holds the game's module-level variables: the grid, the
  active and next pieces, the game-over flag, the drop interval, the last drop time, score, lines and
  level. Its methods are:
  - the timed step `Update`, which uses `LockActive`, `PlacePiece`, `ClearLines` and `AddLines`;
  - the keydown switch `KeyDown`, with key names mapped to commands by `CommandOf`;
  - the play-button `Reset`.

The session invariant `Valid()` says the following:
- the grid is full size;
- the active piece is well formed (row ≥ 0, rectangular, non-empty shape);
- the next piece is exactly a fresh spawn;
- the score is 100 times the number of cleared lines;
- the level never exceeds one per ten lines;
- the drop interval is 1000 · 0.9^level.

The random choice of the next piece type is a parameter of `Update`, of the constructor and of `Reset`.
A clock timestamp is a `real` parameter of `Update`.

Two behaviours of the code are worth stating, and the model follows both:
- The tick that ends the game (`my_tetris.js:156-165`) still clears full rows and adds to score, lines
  and level after setting `isGameOver`. `LockActive` does this too.
- The legality test indexes `grid[y]` for every occupied entry whose column is on the board, so a piece above the top row would make
  it read a missing row and throw. No piece gets there: rows start at 0 (`my_tetris.js:84`) and only
  grow. The model therefore requires `p.y >= 0`.

## Model

| member | source | states |
|---|---|---|
| Catalog.ColorOf | my_tetris.js:13-21 | the colour of each type; every colour belongs to exactly one type (both directions for each of the seven) |
| Catalog.ShapeOf | my_tetris.js:22-30 | every catalog matrix is non-empty and rectangular, has an occupied entry, and fits the board when placed at the spawn column |
| Catalog.CatalogTetrominoes | my_tetris.js:22-30 | every catalog shape has exactly four occupied entries |
| Tetromino.CreateTetromino | my_tetris.js:78-86 | a spawn has the requested type, the catalog shape and colour, column 4 and row 0, and lies on the board |
| Tetromino.RotateClockwise | my_tetris.js:88-89 | an R×C matrix becomes C×R, with entry (i, j) taken from (R-1-j, i) |
| Tetromino.RotateTwice | my_tetris.js:88-89 | two quarter turns send entry (i, j) to (R-1-i, C-1-j) |
| Tetromino.RotateFourTimes | my_tetris.js:88-89 | four quarter turns give back the original matrix |
| Tetromino.RotateKeepsCell | my_tetris.js:88-89 | a rotated matrix still has an occupied entry |
| Tetromino.RotateSquare | my_tetris.js:24 | the O square is a fixed point of rotation |
| Tetromino.RotateBar | my_tetris.js:23 | the I bar turns from 1×4 into 4×1 |
| Tetromino.RotateBarTwice | my_tetris.js:23 | two turns bring the I bar back to its spawn matrix |
| Tetromino.RotateTetromino | my_tetris.js:88-91 | rotation keeps type, colour, x and y and replaces only the shape; a well-formed piece stays well formed |
| Tetromino.Shift | my_tetris.js:94 | the shifted copy covers exactly the cells of the original moved by (dx, dy) |
| Board.CellsFitSpec | my_tetris.js:110-117 | the inner `every` holds iff every occupied entry from column dx on lands on an empty board cell |
| Board.RowsFitSpec | my_tetris.js:109-118 | the outer `every` holds iff every occupied entry from shape row dy on lands on an empty board cell |
| Board.IsValidMove | my_tetris.js:108-119 | the two nested `every` loops (`RowsFit` over shape rows, `CellsFit` over entries, characterised by the two lemmas above) hold iff every covered cell has column in [0, 10), row < 20 and an empty grid cell |
| Board.ValidInBounds | my_tetris.js:108-119 | a legal piece lies inside the board |
| Board.ValidBelowTop | my_tetris.js:101-106 | a legal piece with an occupied cell has row < 20, which bounds the hard-drop loop |
| Board.MoveTetromino | my_tetris.js:93-99 | returns the shifted copy when it is legal and the piece itself otherwise; a legal piece stays legal |
| Board.DroppedPath | my_tetris.js:101-106 | a hard drop changes only y, never moves up, and every row it passes through is legal |
| Board.DroppedSpec | my_tetris.js:101-106 | a hard drop changes only y and never decreases it; every row passed through is legal; one more row down is illegal; a legal piece stays legal |
| Board.HardDrop | my_tetris.js:101-106 | the loop ends, and ends where `Dropped` says |
| Board.PlacedBlocks | my_tetris.js:121-131 | locking never empties a cell, and a locked legal piece is no longer legal where it stands |
| Board.KeptCount | my_tetris.js:135-141 | every row is either kept or counted as removed |
| Board.KeptAppend | my_tetris.js:135-141 | the filter distributes over concatenation, so kept rows keep their relative order |
| Board.KeptNoFull | my_tetris.js:135-141 | a grid without full rows is kept unchanged, with nothing removed |
| Board.ClearedSpec | my_tetris.js:133-146 | the cleared grid is 20×10; its first k rows are empty (k = number of full rows); the rest are the non-full rows in order; no full row remains |
| Board.ClearIdempotent | my_tetris.js:133-146 | clearing a cleared grid removes nothing and changes nothing |
| Game.IntervalShrinks | my_tetris.js:162-165 | the drop interval stays positive and strictly shrinks at each level |
| Game.CommandOf | my_tetris.js:203-233 | ArrowUp, x, Control and z rotate; ArrowDown moves down, ArrowLeft left and ArrowRight right; space hard-drops; Shift and c hold; every key outside the switch does nothing; each clause holds in both directions |
| Game.Respond | my_tetris.js:204-227 | every command keeps the active piece well formed, with the same type and colour |
| Game.CommandKeepsValid | my_tetris.js:208-219 | every command except rotation keeps a legal active piece legal |
| Game.CommandKeepsInBounds | my_tetris.js:208-219 | every command except rotation keeps the active piece on the board |
| Game.RotationCanLeaveBoard | my_tetris.js:204-207 | a legal vertical I bar in column 8 rotates into an illegal bar that leaves the board |
| Game.ClearBottomRow | my_tetris.js:133-146 | when only the bottom row is full, clearing moves every other row down by one |
| Game.LineClearCanCoverSpawn | my_tetris.js:153-159 | the promoted piece is checked before rows are cleared, so a clear can slide a block under a spawned T that had fitted |
| Game.Session.constructor | my_tetris.js:32-41 | the initial state: empty grid, two spawned pieces, not over, interval 1000, last drop 0, score, lines and level 0 |
| Game.Session.PlacePiece | my_tetris.js:121-131 | each cell the piece covers gets its colour, and every other cell is unchanged |
| Game.Session.ClearLines | my_tetris.js:133-146 | returns the number of full rows, and the grid becomes `Cleared` of the old grid |
| Game.Session.AddLines | my_tetris.js:160-165 | score rises by 100·k and lines by k; level rises by one and the interval is scaled by 0.9 exactly when lines reach (level+1)·10; the invariant holds |
| Game.Session.LockActive | my_tetris.js:153-165 | lock, promote, spawn the next piece; game over iff the promoted piece is illegal on the grid after the lock; then clear and score, also in the tick that ends the game |
| Game.Session.Update | my_tetris.js:148-175 | nothing changes after game over or before the interval has passed; otherwise the drop time becomes `time`, and the piece either falls one row or is locked as in LockActive; the active piece is on the board afterwards |
| Game.Session.KeyDown | my_tetris.js:201-235 | while running, the active piece becomes `Respond` of the key's command; hold, ignored keys and any key after game over change nothing; only rotation can make a legal piece illegal |
| Game.Session.Reset | my_tetris.js:237-247 | after game over the state is restored to the initial state; otherwise nothing changes |

## Left out

- Rendering: canvas and DOM lookups, drawing the board and pieces, the animation-frame loop, the
  game-over text and the `textContent` score displays. These have no effect on game state.
- `Math.random` in `getRandomTetromino`. The chosen piece type is a parameter instead.
- Event-listener registration. The keydown switch becomes `KeyDown(key)`, and the button click becomes `Reset`.
- `CELL_SIZE`, the unused held piece, and the Escape and F1 cases. These have no logic; the Escape and F1
  keys map to `Other`, which does nothing.
- Floating point. `dropInterval`, `lastDropTime` and `time` are exact reals, so `dropInterval` is
  exactly 1000 · 0.9^level with no double-precision rounding. Score, lines and level are unbounded naturals.
- Object identity. `newPiece === activePiece` in `update` is modelled as value equality. The two agree
  because a legal downward move always changes `y`. `hardDrop` mutates the active piece object in place;
  the model returns the new value, and `KeyDown` assigns it. No other reference to that object exists.
- Game.Session.Update: requires the active piece to be on the board whenever a lock is due. After an
  unvalidated rotation it may not be. Locking such a piece would then crash the original for a row ≥ 20,
  or write outside the row's ten cells for a column outside 0..9. Neither outcome is modelled.
- Game.Session.PlacePiece: requires every covered cell to be on the board, for the same reason.
- Board.IsValidMove: requires `p.y >= 0`. The original would throw for a negative row, but no piece
  ever reaches one.
- Tetromino.RotateClockwise: requires a non-empty rectangular matrix. Every catalog shape is one, and
  rotation keeps that.
- Board.HardDrop: requires the shape to have an occupied cell. A shape without one would make the
  original loop forever, and no catalog shape or rotation of one lacks an occupied cell.

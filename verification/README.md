# Terminal Tetris engine, modelled in Dafny

This project models the game-state engine of a terminal Tetris game: the
seven tetromino shapes and their rotation, the 10 x 20 board, the
position check, locking a piece, clearing full lines with scoring and
levels, the player's commands (left, right, soft drop, hard drop, rotate
with wall kicks) and the board shown to the player.

Each command is a pure function from one game state to the next:

- `tetromino.dfy` (module `Tetromino`) holds the shapes, spawning, block
  positions and the two quarter turns.
- `playfield.dfy` (module `Playfield`) holds the board as a sequence of
  rows of cells, full rows, deleting rows as the game does it, and
  painting a piece's blocks onto a board.
- `tetris_game.dfy` (module `TetrisGame`) holds the game state and the
  commands.
- `game_properties.dfy` (module `GameProperties`) holds lemmas that follow
  a state through a command or relate several commands. The main one is
  the reachable-state invariant `TetrisGame.Invariant`: a well-formed
  board with no full row, both pieces in one of their kind's four
  orientations, the next piece still at its spawn position, the current
  piece within the columns and above the bottom, `level == lines / 10 + 1`,
  and a valid current piece while the game runs. Every command keeps it,
  whether or not the game is over.

Where the game draws a random kind for a new piece, the caller passes the
kind as a parameter (`spawn`, `first`, `second`). An empty cell is
`Empty`. A filled cell is `Filled(k)`, holding the kind's name, as the
game writes the shape name into the board.

Two points of the engine are easy to miss:

- The level is recomputed only when a lock clears at least one line.
- The engine commands do not check the paused or game-over flags. The key
  loop (not modelled) checks `game_over` once per iteration, before the
  automatic drop (tetris.py:300-308). A key read in the same iteration
  (tetris.py:319-329) can still reach a game that the automatic drop has
  just ended. The model therefore lets every command run on an ended game,
  and the invariant lemmas cover that case too.

## Model

| member | source | states |
|---|---|---|
| Tetromino.Shape | tetris.py:19-27 | every kind has four distinct block offsets, one of them on the anchor (0, 0) |
| Tetromino.Spawn | tetris.py:45-53 | a new piece has the requested kind, the canonical orientation of that kind, and the anchor at column `Width / 2` = 5, row 0 |
| Tetromino.Blocks | tetris.py:55-57 | a piece covers one cell per offset, and block i is the anchor plus offset i: (x + dx, y + dy) |
| Tetromino.RotateClockwise | tetris.py:59-64 | keeps the kind and the anchor; the O piece is returned unchanged; every other piece has each offset (dx, dy) turned to (-dy, dx) |
| Tetromino.RotateCounterclockwise | tetris.py:66-70 | keeps the kind and the anchor; the O piece is returned unchanged; every other piece has each offset (dx, dy) turned to (dy, -dx) |
| Tetromino.SquareNeverTurns | tetris.py:61-63 | the O piece keeps its offsets under both rotations |
| Tetromino.RotateFourTimes | tetris.py:59-64 | four clockwise rotations give back the same piece, for every kind |
| Tetromino.RotateRoundTrip | tetris.py:59-70 | a clockwise rotation undoes a counterclockwise one, and the other way round |
| Tetromino.TurnUnturn | tetris.py:64-70 | the offset maps (dx, dy) -> (-dy, dx) and (dx, dy) -> (dy, -dx) are inverse to each other |
| Tetromino.TurnFour | tetris.py:64 | four clockwise quarter turns of any offset list give back the list |
| Tetromino.RotateKeepsFamily | tetris.py:59-70 | both rotations keep a piece in one of the four orientations of its kind's shape |
| Playfield.EmptyGrid | tetris.py:78 | the initial board is 20 rows of 10 empty cells and has no full row |
| Playfield.FullRowsFrom | tetris.py:119-122 | the rows listed are increasing, are all full, and include every full row from the start row down |
| Playfield.FullRows | tetris.py:119-122 | a row is listed exactly when it is full |
| Playfield.DropRow | tetris.py:126-127 | deleting row y and inserting an empty row on top keeps the height, puts an empty row at index 0, moves every row above y down by one and leaves every row below y where it was |
| Playfield.DropRows | tetris.py:124-127 | deleting a row and inserting an empty row on top, once per listed row, keeps the board height |
| Playfield.Survivors | tetris.py:115-127 | the rows that are not full, in order; none of them is full |
| Playfield.ClearRowsAsFilter | tetris.py:115-127 | deleting the full rows one by one, top to bottom, yields k empty rows over the non-full rows in their original order, where k is the number of full rows |
| Playfield.DropRowsShape | tetris.py:124-127 | after deleting the listed rows up to some row, the board is blank rows, the untouched rows above, then the kept rows below |
| Playfield.KeptFullRows | tetris.py:119-127 | keeping what the full-row list does not delete gives exactly the non-full rows |
| Playfield.ClearedIsWellFormed | tetris.py:124-127 | clearing keeps 20 rows of 10 cells and leaves no full row |
| Playfield.Paint | tetris.py:100-102 | a cell on the board takes the piece's kind if a block covers it and keeps its old content otherwise |
| Playfield.PaintCompletesFewRows | tetris.py:98-105 | on a board with no full row, placing a four-block piece completes at most four rows, so the points table is never indexed past its end |
| TetrisGame.Fits | tetris.py:89-96 | the block-by-block check fails exactly when some block is left or right of the board, below it, or on an occupied cell at row 0 or below |
| TetrisGame.IsValidPosition | tetris.py:87-96 | a valid piece has every block within the columns and above the bottom row |
| TetrisGame.ValidPositionIff | tetris.py:87-96 | a position is invalid if and only if some block is out of the columns, below the board, or on a filled cell; blocks above the board skip the cell check |
| TetrisGame.NewGame | tetris.py:76-85 | a new game has an empty board, score 0, no lines, level 1, the two given pieces at spawn, and is not over; it satisfies the invariant |
| TetrisGame.ClearLines | tetris.py:115-137 | the board becomes k blank rows over the surviving rows, where k is the number of full rows; lines grow by k; the score grows by the table's points for k at the old level; the level is recomputed only when k > 0; with k = 0 nothing changes |
| TetrisGame.Lock | tetris.py:98-113 | the board after a lock is the painted board with its full rows cleared; at most four lines are added; the score never decreases; the next piece becomes current and a new piece of the given kind becomes next; the game is over exactly when it already was or the new current piece does not fit |
| TetrisGame.MoveLeft | tetris.py:139-145 | the move happens exactly when the piece one column left is valid; otherwise the state is unchanged |
| TetrisGame.MoveRight | tetris.py:147-153 | the move happens exactly when the piece one column right is valid; otherwise the state is unchanged |
| TetrisGame.MoveDown | tetris.py:155-162 | the move happens exactly when the piece one row down is valid; otherwise the piece is locked where it is; the score never decreases |
| TetrisGame.DropDistance | tetris.py:164-168 | the loop of moves down stops: the piece fits 1, 2, ..., d rows down and not d + 1 rows down |
| TetrisGame.RestingMoveLocks | tetris.py:155-168 | once the piece rests, the next move down fails and locks it |
| TetrisGame.HardDrop | tetris.py:164-170 | a hard drop moves the piece to the row where it lands, locks it there, and adds 2 x distance to the score |
| TetrisGame.TryKicks | tetris.py:177-181 | the result is the first shift in the list at which the piece fits, or none exactly when no shift fits |
| TetrisGame.TriesStartUnshifted | tetris.py:174-181 | trying the rotated piece first and then the kicks is trying the shifts 0, 1, -1, 2, -2 in that order |
| TetrisGame.Rotate | tetris.py:172-183 | the rotated piece lands at the first of the shifts 0, 1, -1, 2, -2 at which it fits; if none fits the state is unchanged; only the current piece changes |
| TetrisGame.DisplayBoard | tetris.py:185-195 | a displayed cell shows the piece's kind where a block covers it and the board cell otherwise |
| TetrisGame.SpawnFitsEmptyBoard | tetris.py:76-85 | a new piece of every kind fits on the empty board |
| GameProperties.ReachableIsLockable | tetris.py:98-113 | every reachable state, running or ended, meets what locking needs, so no command can index the board or the points table out of range |
| GameProperties.MoveLeftKeepsInvariant | tetris.py:139-145 | a move left keeps any reachable game reachable and does not change whether it is over |
| GameProperties.MoveRightKeepsInvariant | tetris.py:147-153 | a move right keeps any reachable game reachable and does not change whether it is over |
| GameProperties.MoveLeftThenRight | tetris.py:139-153 | a successful move left is undone by a move right, which then succeeds, and the other way round |
| GameProperties.LockKeepsInvariant | tetris.py:98-137 | a lock keeps any reachable state reachable, including `level == lines / 10 + 1`; a running game ends exactly when the promoted piece does not fit |
| GameProperties.MoveDownKeepsInvariant | tetris.py:155-162 | a move down keeps any reachable state reachable; a successful one does not change whether the game is over |
| GameProperties.RotateKeepsInvariant | tetris.py:172-183 | a rotation, kicked or undone, keeps any reachable game reachable and does not change whether it is over |
| GameProperties.FirstFitIndex | tetris.py:177-180 | if some kick fits, there is a first one that fits |
| GameProperties.HardDropLock | tetris.py:155-170 | the lock that ends a hard drop happens at the row where the piece lands and scores the cleared lines at that game's level |
| GameProperties.HardDropScore | tetris.py:164-170 | a hard drop adds two points per row dropped to the points its lock earns for the cleared lines (the clear-lines table times the old level); the score never decreases |
| GameProperties.LandedKeepsInvariant | tetris.py:164-168 | moving the piece down to the row where it lands keeps the state reachable and does not change whether the game is over |
| GameProperties.HardDropKeepsInvariant | tetris.py:164-170 | a hard drop keeps any reachable game reachable |
| GameProperties.LockStampsVisibleBlocks | tetris.py:100-102 | locking writes the kind into every block at row 0 or below and changes no other cell |
| GameProperties.SpawnCellTakenEndsGame | tetris.py:45-53 | a piece of any kind at its spawn position does not fit on a board whose middle cell of the top row is filled |
| GameProperties.FilledSpawnCellEndsGame | tetris.py:98-113 | in a reachable game, a lock that leaves the middle cell of the top row filled ends the game |
| GameProperties.AboveBoardIgnoresCells | tetris.py:93-94 | a piece wholly above the board fits or not regardless of the board's cells |

## Left out

- The terminal front end is left out: rendering, colours, key reading, the
  main loop, gravity timing and `KeyboardInterrupt` handling
  (tetris.py:198-351). It is all I/O.
- The ANSI colour stored in each piece (tetris.py:29-39, 51) is left out.
  It only affects display.
- The random choice of a kind (tetris.py:46-47) is left out. The kind is a
  parameter of `NewGame`, `Lock`, `MoveDown` and `HardDrop`.
- The `paused` flag (tetris.py:85) is left out. No engine method reads it.
- The engine's pieces are mutable and the model's are values. Python's
  in-place changes of `x`, `y` and `shape` become new `Piece` values.
- TetrisGame.Lock: requires `Lockable`. That means a board of the right
  size with no full row, a four-block piece, and every block inside the
  columns and above the bottom. Without it the code would index the board
  out of range (a negative column would even wrap around in Python) or
  index the points table past its end. `GameProperties.ReachableIsLockable`
  proves that every reachable state meets it, including a game that has
  just ended.
- TetrisGame.MoveDown: requires `Lockable`, for the same reason, because
  its failing branch locks.
- TetrisGame.HardDrop: requires `Lockable`, for the same reason. The loop
  is modelled as the drop distance followed by one failing move down. It
  is not modelled as a step-by-step loop over the state.
- TetrisGame.ClearLines: requires at most four full rows, so the points
  table is never indexed past its end. That is the only case the code
  reaches, since the board before a lock has no full row.

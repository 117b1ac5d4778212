# Falling-block game: board and piece model

This project models the game logic of a small falling-block puzzle (a Tetris
clone written in C++ over raylib, all in `main.cpp`). It covers:

- the 20 x 10 playing field of settled cells, where 0 is empty and 1..7 is a colour;
- the active four-cell piece (`Tetromino`): the 7-entry shape table it is
  spawned from, its collision check, and its three transactional moves.
  Each move (sideways, rotate, down) builds a candidate in place, checks it,
  and restores the backup when the check fails.
- locking a landed piece into the field and spawning the next one;
- the bottom-up line-clearing pass, with its write cursor and its 100 points
  per full row.

Three Dafny modules follow the program's parts:

- `board.dfy`, module `Board`: the constants `M = 20` and `N = 10`, points,
  the field as a value (`Grid`), and the reference definition of one
  line-clearing pass (`Kept`, `FullCount`, `ClearedRow`, `ClearedGrid`),
  with its lemmas.
- `tetromino.dfy`, module `Pieces`: the shape table and its decoding, the
  collision predicate `Fits`, and the candidate positions `Shifted`,
  `Rotated` and `Dropped`. `Attempt` is the try-then-roll-back outcome and
  `Painted` is the field after locking. The class `Tetromino` keeps the
  four points in an `array<Point>` and updates them in place, as the
  source's `std::array<Point, 4>` is updated.
- `game.dfy`, module `Tetris`: the per-frame update as a function `Step`
  on a `GameState`, built from steering, gravity (`Gravity`) and the clear
  pass (`ClearPass`), with lemmas about a frame. The class `Game` holds the
  field as an `array2<int>`, the piece, `colorNum` and `scoreValue`. Its
  methods are proved to produce exactly `Step`'s result.

The source runs the sideways move, the rotation, gravity and line clearing
inline in `main`. The model gives each its own method of `Game` (`Steer`,
`ApplyGravity`, `ClearLines`; the inner cell loop of the pass is `CopyRow`).
The statements inside are the source's, in the source's order.

Every method on the objects is tied to a function on values. The checks,
moves and locking are tied to `Fits`, `Attempt` and `Painted` through
`Snapshot`, which reads the field array as a `Grid`. The line-clearing
method's result and score are tied to `ClearedGrid` and `FullCount`. A whole
frame is tied to `Step`. What the game promises is proved about those
functions as lemmas.

Deviations and disagreements, decided by following the code:

- Negative rows. `check()` tests `x` against both borders but `y` only
  against the bottom, and then reads `field[y][x]` even when `y < 0`. A
  rotation near the top can produce that (main.cpp:53-56). That read is
  outside the array. The model refuses such a point: `Free` and
  `Tetromino.Check` treat `y < 0` as not fitting. The active piece
  therefore always lies on the field, so `printToField` never writes
  outside it either. The source would either accept or refuse such a move,
  depending on whatever memory lies before the array.
- Upper rows are not cleared. The pass never reads row 0 and never empties
  the rows above its final cursor. The model keeps this exactly as written
  (`ClearedRow`). Two lemmas show the consequences. `StaleRowAtCursor`:
  when row 1 is not full and some lower row is cleared, row 1 is left in
  two places. `FullRowOneSurvives`: a full row 1 is still full after the
  pass, so every later frame scores it again. Zeroing those rows would be a
  different program, so the model does not do it.
- The O piece is not rotation-invariant. Its pivot `shape[1]` is its top
  right cell (1, 1), so one rotation moves the square up one row
  (`RotateO`). All pieces return to their start after four accepted
  rotations (`FourAcceptedRotations`).
- The shape codes are non-negative, so Dafny's Euclidean `%` and `/` agree
  with C++'s truncating ones in the decoding `x = v % 2, y = v / 2`.

## Model

| member | source | states |
|---|---|---|
| `Pieces.Figure` | main.cpp:16-24 | the table has 4 codes per shape, each in 0..7 |
| `Pieces.Spawn` | main.cpp:25-28 | decoding a shape gives exactly 4 points, with x in 0..1 and y in 0..3, so all lie inside the field |
| `Pieces.SpawnI` | main.cpp:25-28 | shape 0 (I) decodes to (1,0), (1,1), (1,2), (1,3) |
| `Pieces.SpawnFitsEmpty` | main.cpp:25-38 | every spawned shape passes the check on an empty field |
| `Pieces.Tetromino.constructor` | main.cpp:15-29 | the constructor's loop leaves the piece's four points equal to `Spawn(shapeNr)` |
| `Pieces.Tetromino.Check` | main.cpp:31-39 | the result is true iff every point has 0 <= x < N, 0 <= y < M and a cell that is not > 0 (y >= 0 is this model's bound, see above) |
| `Pieces.Fits` | main.cpp:31-39 | reference definition of the collision test: each point lies in columns 0..N-1 and rows 0..M-1 over a cell that is not > 0; `Tetromino.Check` is proved to compute it and `FitsInBounds` draws the bounds from it |
| `Pieces.FitsInBounds` | main.cpp:31-39 | a shape that passes the check lies on the field |
| `Pieces.Tetromino.MoveAlongX` | main.cpp:41-48 | the new shape is the shifted shape if that passes the check, otherwise exactly the backup |
| `Pieces.ShiftZero` | main.cpp:41-48 | a shift by 0 leaves the shape unchanged, on any field |
| `Pieces.ShiftBack` | main.cpp:41-48 | a shift adds dx to every x, keeps every y, and is undone by a shift of -dx |
| `Pieces.MoveLeftExample` | main.cpp:41-48 | on an empty field the I piece moves left to column 0; a second move left is refused and leaves it there |
| `Pieces.SlideLeftTwice` | main.cpp:41-48 | the same two moves made on a real `Tetromino` over an empty field array give (0,0)..(0,3) both times |
| `Pieces.Tetromino.Rotate` | main.cpp:49-60 | the new shape is every point turned to (cx - (y - cy), cy + (x - cx)) about `shape[1]` if that passes the check, otherwise exactly the backup |
| `Pieces.RotatePivot` | main.cpp:49-60 | a rotation keeps the pivot `shape[1]` in place and keeps 4 points |
| `Pieces.RotateAboutFour` | main.cpp:52-57 | four quarter turns about one centre return a point to itself |
| `Pieces.RotateFourTimes` | main.cpp:49-60 | four rotations of a shape give back the shape, because they all turn about the same pivot |
| `Pieces.FourAcceptedRotations` | main.cpp:49-60 | four rotation attempts in a row that are all accepted restore the original shape |
| `Pieces.RotateO` | main.cpp:49-60 | rotating the O piece gives the same square one row higher, not the same cells |
| `Pieces.Tetromino.MoveDown` | main.cpp:62-72 | returns true iff the lowered shape passes the check; then every y has grown by 1; otherwise the shape is exactly the backup |
| `Pieces.DroppedPoints` | main.cpp:62-72 | the lowered shape adds 1 to every y and keeps every x |
| `Pieces.AttemptKeepsFit` | main.cpp:41-72 | after any of the three moves, accepted or rolled back, a shape that passed the check still passes it, and a shape on the field stays on the field |
| `Pieces.Attempt` | main.cpp:41-48 | the outcome of a try-then-restore move (restore of the backup at lines 46-47, 58-59, 67-70): always one of the candidate or the backup, and the backup only when the candidate does not fit |
| `Pieces.Tetromino.PrintToField` | main.cpp:74-77 | cells at the piece's points become `colorNum`, and every other cell keeps its old value |
| `Pieces.Painted` | main.cpp:74-77 | reference definition of the field after locking; it has the same number of rows and the same row widths as the field it paints, and `PaintedCells` gives its cells |
| `Pieces.PaintedCells` | main.cpp:74-77 | after locking, each of the piece's cells holds the colour and is occupied, so the locked piece no longer passes the check; all other cells are unchanged |
| `Pieces.PaintedInRange` | main.cpp:74-77 | locking with a colour in 1..7 keeps every cell in 0..7 |
| `Board.EmptyGrid` | main.cpp:9 | the initial field is 20 x 10 and every cell is empty |
| `Board.CountFull` | main.cpp:133-139 | the count of cells > 0 equals N exactly when the row is full, so `count < N` means "not full" |
| `Board.Kept` | main.cpp:131-143 | the rows the pass keeps are rows of the field, at most one per row scanned, each N cells wide |
| `Board.KeptNotFull` | main.cpp:134-137 | no row the pass keeps is full: a row is kept only if its count of filled cells is below N |
| `Board.KeptPlusFull` | main.cpp:131-143 | each of the rows 1..M-1 is either kept or counted as full |
| `Board.CursorIsFullCount` | main.cpp:131-140 | the final cursor k equals the number of full rows among 1..M-1, so it lies in 0..M-1 |
| `Board.ClearedRow` | main.cpp:131-143 | every row after the pass is a copy of some row from before the pass |
| `Board.ClearedGrid` | main.cpp:131-143 | closed form of the field after the pass, one `ClearedRow` per row; `ClearedWellFormed`, `NoFullRowUnchanged` and `ClearBlock` state its properties, and `Game.ClearLines` is proved to produce it |
| `Board.ProgressStep` | main.cpp:131-143 | each step of the pass keeps k >= i and reads row i intact; it writes row i onto row k only; k moves up exactly when the row is not full |
| `Board.ClearedWellFormed` | main.cpp:131-143 | the pass keeps the field 20 x 10 with every cell in 0..7 |
| `Board.NoFullRowUnchanged` | main.cpp:131-143 | with no full row among 1..M-1 the pass leaves the field unchanged |
| `Board.KeptAllRows` | main.cpp:131-143 | with no full row, the kept rows are rows M-1 down to 1, in that order |
| `Board.StaleRowAtCursor` | main.cpp:131-143 | when row 1 is not full and k >= 1 rows are cleared, row 1 is copied to row k+1 and also stays at row 1; the cursor row k and every row above it keep their old contents |
| `Board.FullRowOneSurvives` | main.cpp:132-142 | a full row 1 is still full after the pass, so the next pass scores it again |
| `Board.BlockKept` | main.cpp:131-143 | for one block of adjacent full rows, how many rows are kept and which ones, in order |
| `Board.ClearBlock` | main.cpp:131-143 | a block of n adjacent full rows a..a+n-1 scores n rows; rows below the block stay; rows 1..a-1 move down exactly n; rows 0..n keep their old contents, except that row n receives row 1 when a = 1 |
| `Board.ClearBottomRow` | main.cpp:131-143 | a full bottom row on an otherwise empty field scores one row and leaves the field empty |
| `Tetris.Game.CopyRow` | main.cpp:133-138 | the inner loop copies row i onto row k and changes no other row; its count is the number of cells > 0 in the old row i |
| `Tetris.Game.ClearLines` | main.cpp:131-143 | after the pass, the field is `ClearedGrid` of the old field and the score has grown by 100 x the number of full rows among 1..M-1 |
| `Tetris.StepScore` | main.cpp:131-143 | in a frame the score grows by exactly 100 x the number of full rows after gravity; it never falls and grows by at most 1900 |
| `Tetris.Initial` | main.cpp:92-96 | the starting state satisfies the game invariant: an empty field, colour 1, shape 0, score 0 |
| `Tetris.Game.constructor` | main.cpp:92-96 | the new game is in that starting state |
| `Tetris.Steered` | main.cpp:116-118 | steering keeps 4 points |
| `Tetris.SteeredKeepsFit` | main.cpp:116-118 | the sideways move and the rotation keep a piece on the field, and keep a fitting piece fitting |
| `Tetris.Game.Steer` | main.cpp:116-118 | the piece afterwards is the result of the sideways move, then of the rotation if one was requested |
| `Tetris.Gravity` | main.cpp:121-128 | gravity keeps the field's shape and never changes the score |
| `Tetris.ClearPass` | main.cpp:131-143 | the pass on a whole game state: the field becomes `ClearedGrid` and the score grows by 100 per full row; `StepScore` bounds that growth |
| `Tetris.Game.ApplyGravity` | main.cpp:121-128 | the game state afterwards is `Gravity` of the old one: the piece moves down, or is locked with `colorNum`, and the piece of shape nextColor - 1 is spawned with colour nextColor |
| `Tetris.LockOnlyOnLanding` | main.cpp:121-128 | unless the lowered piece fails the check on a gravity tick, nothing is locked: the colour stays and only the clear pass touches the field |
| `Tetris.LandingLocksAndRespawns` | main.cpp:121-126 | on landing, exactly the piece's cells take its colour; the new piece is `Spawn(nextColor - 1)` and the new colour is nextColor |
| `Tetris.StepWellFormed` | main.cpp:105-143 | a frame keeps the invariant: field 20 x 10 with cells in 0..7, piece of 4 points on the field, colour in 1..7, score a non-negative multiple of 100 |
| `Tetris.QuietFrame` | main.cpp:105-143 | a frame with dx = 0, no rotation, no gravity tick and no full row changes nothing |
| `Tetris.Game.Frame` | main.cpp:105-143 | one frame leaves the game in exactly the state `Step` gives for the inputs, and keeps the invariant |
| `Tetris.Step` | main.cpp:105-143 | reference definition of one frame: steer, then gravity, then the pass; `StepWellFormed`, `StepScore`, `LockOnlyOnLanding`, `LandingLocksAndRespawns` and `QuietFrame` state its properties |

## Left out

- Window creation, the frame-rate target, font and texture loading and all
  drawing (main.cpp:87-90, 149-170) are calls into the graphics library. They
  hold no game logic.
- Keyboard polling (main.cpp:107-114) is input. Its outcome enters
  `Game.Frame` as the parameters `dx` and `rotate`. When both arrow keys
  register, the source's later assignment `dx = 1` wins; that choice is
  the caller's.
- The wall-clock timer, the float `timer` and `delay`, and the soft drop
  while the down key is held (main.cpp:93-103, 113-114, 121, 127, 147) are
  timing. Whether gravity fires this frame enters as the boolean `fall`.
- `srand` and `rand` (main.cpp:85, 124) are a random number generator. The
  drawn colour `1 + rand() % 7` enters as `nextColor`, which the caller
  must give in 1..7, the range of that expression.
- The outer loop `while (!WindowShouldClose())` (main.cpp:98) runs until
  the window closes. The model gives one iteration, `Game.Frame`. There is
  no game-over check in the source, and none in the model.
- Pieces.Tetromino.Check: refuses a point with y < 0. The source leaves
  that case undefined: it reads memory outside the field.
- Tetris.Game.ClearLines: `scoreValue` is an unbounded integer. The
  source's `int` would overflow after about 21 million cleared rows, and
  that overflow is not modelled. Coordinates stay within a few cells of the
  field, so they cannot overflow.

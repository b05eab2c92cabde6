# Tetris game engine in Dafny

This project models the game-state engine of a small pygame Tetris
(`tetris.py`): the seven tetromino templates and their colours, the falling
piece and its clockwise rotation, the 20 x 20 playfield, the collision test,
the player's commands (move, rotate, hard drop), the gravity step, locking a
piece into the grid, clearing full rows with their score / lines / level
bookkeeping, and the lives / game-over state machine that runs when a new
piece cannot spawn.

Three modules, one file each:

- `pieces.dfy` (module `Pieces`): the grid size, `Colors`, `Shapes`, the
  quarter turn `Rotated` of a shape matrix (the `zip(*shape[::-1])` of the
  source, including its truncation to the shortest row), the occupied-cell
  count, and the class `Tetromino` with fields `kind`, `shape`, `color`, `x`,
  `y` and its in-place `Rotate`.
- `board.dfy` (module `Board`): the grid as a value and the functions that
  specify the engine: `Fits` (the collision predicate), `Lock` (the grid
  after writing a piece), `NonFull` / `FullCount` / `Cleared` (row clearing)
  and `Landing` (where a hard drop comes to rest), with their lemmas.
- `game.dfy` (module `Game`): the class `Tetris` whose fields are the grid,
  the active and next `Tetromino`, score, level, lines cleared, lives and
  the game-over flag. Each method of the source is a method here, proved
  against the functions of `Board`, and each keeps the engine invariant
  `Valid()`: the grid is 20 x 20, both pieces are distinct objects and
  well formed (a kind in 0..6, a rectangular shape with an occupied cell,
  the kind's colour), the next piece waits at its spawn position, the
  active piece stays inside the side walls and above the floor and (while
  the game is not over) collides with nothing, `score == 100 * linesCleared`,
  `level == linesCleared / 5 + 1`, and a running game has a life left.

An empty cell is 0; a locked cell holds the colour id `kind + 1`, which
stands for the RGB triple `Colors[kind]` that the source stores in the grid.
The source draws every new piece kind with `random.randint`; here each kind
is a parameter in `0..6` (`t` for the new next piece after a placement,
`r1` / `r2` for the two pieces of a board reset).

## Model

| member | source | states |
|---|---|---|
| Pieces.ColorId | tetris.py:24-32 | the cell value of a kind is non-zero and names that kind's entry of the colour table |
| Pieces.ShapesWellFormed | tetris.py:34-42 | every template is a rectangular matrix of exactly four occupied cells, at most 2 rows by 4 columns |
| Pieces.SpawnX | tetris.py:85 | the spawn column centres the shape, so a shape no wider than the grid spawns between the side walls |
| Pieces.Turn | tetris.py:89 | defines reading the first n columns of a shape, each from the bottom row up (no contract; its properties are stated by RotatedMatrix and TurnCount) |
| Pieces.Rotated | tetris.py:89 | defines `zip(*shape[::-1])` as the turn of the first MinLen columns (no contract; see RotatedMatrix, HalfTurn, FullTurn, RotatedCount) |
| Pieces.MinLen | tetris.py:89 | the number of tuples `zip` yields is the length of the shortest row: no longer than any row, equal to one of them, 0 with no rows |
| Pieces.RotatedMatrix | tetris.py:89 | a quarter turn makes an r x c matrix into a c x r matrix with `new[i][j] == old[r-1-j][i]` |
| Pieces.HalfTurn | tetris.py:89 | two quarter turns keep the dimensions and map cell (i, j) to (r-1-i, c-1-j) |
| Pieces.FullTurn | tetris.py:89 | four quarter turns give back the original shape |
| Pieces.RotatedCount | tetris.py:89 | a quarter turn keeps the number of occupied cells |
| Pieces.TurnCount | tetris.py:89 | reading the columns of a rectangular matrix bottom-up keeps the number of occupied cells |
| Pieces.RotatedHasCell | tetris.py:89 | a quarter turn of a shape with an occupied cell still has one |
| Pieces.Orientations | tetris.py:88-89 | defines the four shapes successive turns reach from a template (no contract; see OrientationsClosed, OrientationsWellFormed) |
| Pieces.OrientationsClosed | tetris.py:88-89 | turning any orientation of a template gives an orientation of it again: the fourth turn comes back to the template |
| Pieces.OrientationsWellFormed | tetris.py:34-42 | every orientation of a template is a rectangular matrix of exactly four occupied cells |
| Pieces.TurnKeepsFour | tetris.py:89 | a turn of a rectangular four-cell shape is again a rectangular four-cell shape |
| Pieces.Tetromino.SpawnOriented | tetris.py:83 | a piece at its spawn position has one of its kind's orientations |
| Pieces.CountHasCell | tetris.py:34-42 | a shape with a positive cell count has an occupied cell |
| Pieces.Tetromino.constructor | tetris.py:81-86 | a new piece of kind k has template k, colour id k + 1, spawns centred horizontally at row 0, and is well formed |
| Pieces.Tetromino.Rotate | tetris.py:88-89 | the shape becomes its quarter turn, a well-formed piece stays well formed and a piece in one of its kind's orientations stays in one; nothing else changes |
| Board.EmptyGrid | tetris.py:93 | the fresh grid is 20 rows of 20 cells |
| Board.Fits | tetris.py:109-117 | defines the collision condition: every occupied cell inside the side walls, above the floor, and above the top edge or on an empty cell (no contract; IsValid is proved equal to it) |
| Board.FitsInBounds | tetris.py:109-117 | a position that passes the collision test lies inside the side walls and above the floor wherever the piece reaches into the grid |
| Board.FitsAboveFloor | tetris.py:109-117 | a position that passes the collision test has its top row above the floor |
| Board.SpawnFitsEmpty | tetris.py:85-86 | every template at its spawn position fits an empty grid |
| Board.Lock | tetris.py:120-123 | writing a piece keeps the grid 20 x 20 |
| Board.LockCells | tetris.py:120-123 | every occupied shape cell at or below the top edge gets the piece's colour, every cell the piece does not cover keeps its value |
| Board.LockFillsEmptyCells | tetris.py:120-123 | every cell a piece that fits covers was empty, and locking it changes exactly the covered cells |
| Board.NonFull | tetris.py:135 | the kept rows are never more than the rows |
| Board.FullCount | tetris.py:136 | the number of full rows plus the number of kept rows is the height |
| Board.Cleared | tetris.py:134-142 | the cleared grid is again 20 x 20 |
| Board.NonFullRows | tetris.py:135 | every kept row is a row of the grid and has an empty cell |
| Board.NonFullKeeps | tetris.py:135 | a row is kept if and only if it is a row of the grid that is not full |
| Board.NonFullAppend | tetris.py:135 | the filter distributes over concatenation, so kept rows keep their order |
| Board.FullCountAppend | tetris.py:136 | full rows of a concatenation are counted part by part |
| Board.ClearedNoFullRows | tetris.py:134-142 | no full row remains after clearing |
| Board.NoFullRows | tetris.py:134-142 | clearing a grid without full rows removes nothing |
| Board.ClearedIdempotent | tetris.py:134-142 | clearing twice is clearing once, and the second time counts no lines |
| Board.ClearedShiftsDown | tetris.py:134-142 | a non-full row moves down by exactly the number of full rows below it |
| Board.Landing | tetris.py:158-159 | defines the row where moving down one row at a time stops (no contract; see LandingRests and LandingAt) |
| Board.LandingRests | tetris.py:157-160 | the landing row is at or below the start, every row passed fits, and the next row down does not |
| Board.LandingAt | tetris.py:157-160 | conversely, a row reached through fitting rows whose next row down does not fit is the landing row |
| Game.Tetris.constructor | tetris.py:92-101 | a new game has an empty grid, two fresh pieces of the given kinds, score 0, level 1, no lines, 3 lives, is not over, and satisfies the engine invariant |
| Game.Tetris.ResetBoard | tetris.py:103-107 | the grid is emptied and both pieces replaced by fresh pieces at their spawn positions; the counters are untouched and the invariant is restored |
| Game.Tetris.IsValid | tetris.py:109-117 | the cell-by-cell scan answers true exactly when every occupied cell is inside the side walls, above the floor, and above the top edge or on an empty cell |
| Game.Tetris.LockPiece | tetris.py:120-123 | the grid becomes the grid with the active piece written into it |
| Game.Tetris.ClearLines | tetris.py:134-142 | the grid becomes the cleared grid; lines and score grow by the number of full rows, level is lines / 5 + 1; the counter invariant is kept |
| Game.Tetris.Promote | tetris.py:125-132 | the next piece becomes active and a fresh next piece is made; if the promoted piece does not fit, one life is lost, and the board is reset while lives remain, else the game is over; the invariant holds after |
| Game.Tetris.PlacePiece | tetris.py:119-132 | placing keeps the invariant and its effect is exactly: lock, clear and count the full rows, then promote with the lives / game-over state machine |
| Game.Tetris.Move | tetris.py:144-149 | the piece moves by (dx, dy) exactly when it fits there, reports whether it moved, and otherwise stays; the grid and counters are untouched and the invariant is kept |
| Game.Tetris.Rotate | tetris.py:151-155 | the shape becomes its quarter turn when that fits at the same position, otherwise the old shape is restored; the position never changes, and a piece in one of its kind's orientations stays in one |
| Game.Tetris.Fall | tetris.py:158-159 | the downward loop terminates with the piece in the same column, every row passed fits and the next row down does not |
| Game.Tetris.Drop | tetris.py:157-160 | the piece is placed at its landing row in the same column and shape, with the full effect of a placement |
| Game.Tetris.Update | tetris.py:162-167 | when the fall interval has elapsed the piece moves one row down if that fits, else it is placed; when it has not, nothing changes |
| Game.Tetris.SpawnInBounds | tetris.py:81-86 | a well-formed piece at its spawn position lies inside the grid |

## Left out

- Rendering (`draw_3d_block`, `draw_background_blocks`, `Tetris.draw`, fonts, screen setup) is pygame output with nothing to state about the game state.
- The `main` event loop and key dispatch, including its `game_over` guard around the commands and around `update`; the engine methods here do not check `gameOver` themselves, as in the source.
- Game.Tetris.Update: the wall-clock `drop_timer` and the float `fall_interval = max(0.1, 0.5 - (level - 1) * 0.05)` are not modelled; whether the interval has elapsed is the parameter `elapsed`, and the timer resets are omitted.
- Random piece kinds (`random.randint`) are parameters in 0..6.
- `copy.deepcopy` of the template is implicit: Dafny sequences are values.
- Python's negative list indices are not modelled; the invariant `Valid()` keeps every index the engine uses in range, so they are never reached.
- Colours are stored as colour ids `kind + 1` rather than RGB triples; `ColorId` relates the two.
- Game.Tetris.Valid: the engine invariant does not carry that the active piece's shape is one of its kind's four orientations (`Tetromino.Oriented`), because unfolding the turned shapes in every state is too costly for the verifier; spawned pieces have it (`SpawnOriented`) and both rotate methods preserve it, but the placement methods do not state it.
- Pieces.Tetromino.Rotate: for a non-rectangular shape the quarter turn truncates to the shortest row as `zip` does; the shape lemmas are stated for rectangular shapes only, which is all the templates and their turns ever are.

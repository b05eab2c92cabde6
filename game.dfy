/** The game engine: the playfield, the active and the next piece, and the
    score / lines / level / lives counters, with the commands the player
    issues (move, rotate, drop) and the gravity step. The kind of each new
    piece is a parameter where the game draws it at random. */
module Game {
  import opened Pieces
  import opened Board

  const StartLives := 3

  class Tetris {
    var grid: Grid
    var piece: Tetromino
    var nextPiece: Tetromino
    var score: int
    var level: int
    var linesCleared: int
    var lives: int
    var gameOver: bool

    /** The counters: score and level follow from the lines cleared, lives
        only ever go down from the start value, and a game that is not over
        has a life left. */
    ghost predicate Counters()
      reads this
    {
      linesCleared >= 0 &&
      score == 100 * linesCleared &&
      level == linesCleared / 5 + 1 &&
      lives <= StartLives &&
      (!gameOver ==> lives >= 1)
    }

    /** The engine invariant. The active piece always lies inside the grid
        where it reaches into it, and collides with nothing while the game
        is not over; the next piece waits at its spawn position. */
    ghost predicate Valid()
      reads this, piece, nextPiece
    {
      IsGrid(grid) &&
      piece != nextPiece &&
      piece.Valid() && nextPiece.Valid() && nextPiece.AtSpawn() &&
      InBounds(piece.shape, piece.x, piece.y) &&
      (!gameOver ==> Fits(grid, piece.shape, piece.x, piece.y)) &&
      Counters()
    }

    /** What locking a piece with shape s at (x, y) in colour color and then
        promoting the next piece did, from the state before it: the full
        rows of the locked grid were cleared and counted, and the promotion
        started from the cleared grid. */
    twostate predicate Settled(s: Shape, x: int, y: int, color: int, t: int, r1: int, r2: int)
      reads this, piece, nextPiece
    {
      old(IsGrid(grid)) &&
      var locked := Lock(old(grid), s, x, y, color);
      var k := FullCount(locked);
      linesCleared == old(linesCleared) + k &&
      score == old(score) + 100 * k &&
      level == linesCleared / 5 + 1 &&
      Promoted(Cleared(locked), t, r1, r2)
    }

    constructor (t1: int, t2: int)
      requires IsKind(t1) && IsKind(t2)
      ensures Valid()
      ensures grid == EmptyGrid()
      ensures fresh(piece) && piece.kind == t1 && piece.AtSpawn()
      ensures fresh(nextPiece) && nextPiece.kind == t2 && nextPiece.AtSpawn()
      ensures score == 0 && level == 1 && linesCleared == 0 && lives == StartLives && !gameOver
    {
      grid := EmptyGrid();
      piece := new Tetromino(t1);
      nextPiece := new Tetromino(t2);
      score := 0;
      level := 1;
      linesCleared := 0;
      lives := StartLives;
      gameOver := false;
      new;
      ShapesWellFormed(t1);
      SpawnFitsEmpty(piece.shape);
      FitsInBounds(grid, piece.shape, piece.x, piece.y);
    }

    /** Empties the grid and replaces both pieces; the counters stay. */
    method ResetBoard(t1: int, t2: int)
      requires IsKind(t1) && IsKind(t2)
      modifies this`grid, this`piece, this`nextPiece
      ensures grid == EmptyGrid()
      ensures fresh(piece) && piece.kind == t1 && piece.AtSpawn()
      ensures fresh(nextPiece) && nextPiece.kind == t2 && nextPiece.AtSpawn()
      ensures Counters() ==> Valid()
    {
      grid := EmptyGrid();
      piece := new Tetromino(t1);
      nextPiece := new Tetromino(t2);
      ShapesWellFormed(t1);
      SpawnFitsEmpty(piece.shape);
      FitsInBounds(grid, piece.shape, piece.x, piece.y);
    }

    /** The collision test, cell by cell, stopping at the first conflict. */
    method IsValid(s: Shape, x: int, y: int) returns (ok: bool)
      requires IsGrid(grid)
      ensures ok == Fits(grid, s, x, y)
    {
      var i := 0;
      while i < |s|
        invariant 0 <= i <= |s|
        invariant forall a, b :: 0 <= a < i && 0 <= b < |s[a]| && s[a][b] != 0 ==> CellFree(grid, x + b, y + a)
      {
        var j := 0;
        while j < |s[i]|
          invariant 0 <= j <= |s[i]|
          invariant forall b :: 0 <= b < j && s[i][b] != 0 ==> CellFree(grid, x + b, y + i)
        {
          if s[i][j] != 0 {
            if x + j < 0 || x + j >= GridWidth || y + i >= GridHeight {
              return false;
            }
            if y + i >= 0 && grid[y + i][x + j] != 0 {
              return false;
            }
          }
          j := j + 1;
        }
        i := i + 1;
      }
      return true;
    }

    /** Writes the active piece into the grid, clears full rows, promotes
        the next piece and, when the promoted piece does not fit, takes a
        life: the board is reset while lives remain, else the game is over. */
    method PlacePiece(t: int, r1: int, r2: int)
      requires Valid() && IsKind(t) && IsKind(r1) && IsKind(r2)
      modifies this
      ensures Valid()
      ensures Settled(old(piece.shape), old(piece.x), old(piece.y), old(piece.color), t, r1, r2)
    {
      LockPiece();
      ClearLines();
      Promote(t, r1, r2);
    }

    /** What promoting the next piece onto grid g did: either the promoted
        piece fits where it waits and a fresh next piece of kind t follows
        it, or a life was lost and, while lives remain, the board was emptied
        and refilled with pieces of kinds r1 and r2, or else the game is
        over. */
    twostate predicate Promoted(g: Grid, t: int, r1: int, r2: int)
      requires IsGrid(g)
      reads this, piece, nextPiece
    {
      var spawnFits := Fits(g, old(nextPiece.shape), old(nextPiece.x), old(nextPiece.y));
      (spawnFits ==>
        grid == g && piece == old(nextPiece) &&
        fresh(nextPiece) && nextPiece.kind == t && nextPiece.AtSpawn() &&
        lives == old(lives) && gameOver == old(gameOver)) &&
      (!spawnFits ==> lives == old(lives) - 1) &&
      (!spawnFits && lives > 0 ==>
        grid == EmptyGrid() &&
        fresh(piece) && piece.kind == r1 && piece.AtSpawn() &&
        fresh(nextPiece) && nextPiece.kind == r2 && nextPiece.AtSpawn() &&
        gameOver == old(gameOver)) &&
      (!spawnFits && lives <= 0 ==>
        grid == g && piece == old(nextPiece) &&
        fresh(nextPiece) && nextPiece.kind == t && nextPiece.AtSpawn() &&
        gameOver)
    }

    /** The last part of placing a piece: the next piece becomes the active
        one and a new next piece is made; when the promoted piece does not
        fit, a life is taken and the board is reset while lives remain, else
        the game is over. */
    method Promote(t: int, r1: int, r2: int)
      requires IsGrid(grid) && nextPiece.Valid() && nextPiece.AtSpawn()
      requires Counters() && IsKind(t) && IsKind(r1) && IsKind(r2)
      modifies this
      ensures Valid()
      ensures linesCleared == old(linesCleared) && score == old(score) && level == old(level)
      ensures Promoted(old(grid), t, r1, r2)
    {
      SpawnInBounds(nextPiece);
      piece := nextPiece;
      nextPiece := new Tetromino(t);
      var ok := IsValid(piece.shape, piece.x, piece.y);
      if ok {
        FitsInBounds(grid, piece.shape, piece.x, piece.y);
      } else {
        lives := lives - 1;
        if lives > 0 {
          ResetBoard(r1, r2);
        } else {
          gameOver := true;
        }
      }
    }

    /** The first half of placing a piece: its colour is written into every
        grid cell under an occupied cell of its shape, row by row. */
    method LockPiece()
      requires IsGrid(grid) && InBounds(piece.shape, piece.x, piece.y)
      modifies this`grid
      ensures grid == Lock(old(grid), piece.shape, piece.x, piece.y, piece.color)
    {
      var s, px, py, color := piece.shape, piece.x, piece.y, piece.color;
      ghost var g0 := grid;
      var i := 0;
      while i < |s|
        invariant 0 <= i <= |s|
        invariant IsGrid(grid)
        invariant forall r, c :: 0 <= r < GridHeight && 0 <= c < GridWidth ==>
          grid[r][c] == if Covers(s, px, py, r, c) && r - py < i then color else g0[r][c]
      {
        var j := 0;
        while j < |s[i]|
          invariant 0 <= j <= |s[i]|
          invariant IsGrid(grid)
          invariant forall r, c :: 0 <= r < GridHeight && 0 <= c < GridWidth ==>
            grid[r][c] == if Covers(s, px, py, r, c) && (r - py < i || (r - py == i && c - px < j)) then color else g0[r][c]
        {
          if s[i][j] != 0 && py + i >= 0 {
            grid := grid[py + i := grid[py + i][px + j := color]];
          }
          j := j + 1;
        }
        i := i + 1;
      }
      var l := Lock(g0, s, px, py, color);
      forall r | 0 <= r < GridHeight
        ensures grid[r] == l[r]
      {
      }
    }

    /** A piece waiting at its spawn position lies inside the grid. */
    static lemma SpawnInBounds(p: Tetromino)
      requires p.Valid() && p.AtSpawn()
      ensures InBounds(p.shape, p.x, p.y)
    {
      ShapesWellFormed(p.kind);
      SpawnFitsEmpty(p.shape);
      FitsInBounds(EmptyGrid(), p.shape, p.x, p.y);
    }

    /** Removes every full row at once, puts as many empty rows on top, and
        adds the rows removed to the lines, the score and the level. */
    method ClearLines()
      requires IsGrid(grid)
      modifies this`grid, this`score, this`linesCleared, this`level
      ensures grid == Cleared(old(grid))
      ensures linesCleared == old(linesCleared) + FullCount(old(grid))
      ensures score == old(score) + 100 * FullCount(old(grid))
      ensures level == linesCleared / 5 + 1
      ensures old(Counters()) ==> Counters()
    {
      var rows := NonFull(grid);
      var cleared := GridHeight - |rows|;
      linesCleared := linesCleared + cleared;
      score := score + cleared * 100;
      level := linesCleared / 5 + 1;
      while |rows| < GridHeight
        invariant |NonFull(old(grid))| <= |rows| <= GridHeight
        invariant rows == EmptyRows(|rows| - |NonFull(old(grid))|) + NonFull(old(grid))
        decreases GridHeight - |rows|
      {
        rows := [EmptyRow()] + rows;
      }
      grid := rows;
    }

    /** Shifts the active piece by (dx, dy) when it fits there. */
    method Move(dx: int, dy: int) returns (moved: bool)
      requires Valid()
      modifies piece`x, piece`y
      ensures Valid()
      ensures moved == Fits(grid, piece.shape, old(piece.x) + dx, old(piece.y) + dy)
      ensures piece.x == old(piece.x) + (if moved then dx else 0)
      ensures piece.y == old(piece.y) + (if moved then dy else 0)
    {
      moved := IsValid(piece.shape, piece.x + dx, piece.y + dy);
      if moved {
        piece.x := piece.x + dx;
        piece.y := piece.y + dy;
        FitsInBounds(grid, piece.shape, piece.x, piece.y);
      }
    }

    /** Turns the active piece a quarter clockwise in place when the turned
        shape fits there; otherwise keeps the shape it had. */
    method Rotate()
      requires Valid()
      modifies piece`shape
      ensures Valid()
      ensures var turned := Rotated(old(piece.shape));
        piece.shape == if Fits(grid, turned, piece.x, piece.y) then turned else old(piece.shape)
      ensures old(piece.Oriented()) ==> piece.Oriented()
    {
      var previous := piece.shape;
      piece.Rotate();
      var ok := IsValid(piece.shape, piece.x, piece.y);
      if !ok {
        piece.shape := previous;
      } else {
        FitsInBounds(grid, piece.shape, piece.x, piece.y);
      }
    }

    /** Moves the active piece down for as long as it fits, then places it. */
    method Drop(t: int, r1: int, r2: int)
      requires Valid() && IsKind(t) && IsKind(r1) && IsKind(r2)
      modifies this, piece`x, piece`y
      ensures Valid()
      ensures HasCell(old(piece.shape)) &&
        old(piece).y == Landing(old(grid), old(piece.shape), old(piece.x), old(piece.y))
      ensures old(piece).x == old(piece.x) && old(piece).shape == old(piece.shape)
      ensures Settled(old(piece.shape), old(piece.x), old(piece).y, old(piece.color), t, r1, r2)
    {
      ghost var g, s, x, y := grid, piece.shape, piece.x, piece.y;
      Fall();
      LandingAt(g, s, x, y, piece.y);
      PlacePiece(t, r1, r2);
    }

    /** The loop of a hard drop: one row down at a time until the next row
        down does not fit. Every row passed on the way fits. */
    method Fall()
      requires Valid()
      modifies piece`x, piece`y
      ensures Valid()
      ensures piece.x == old(piece.x) && old(piece.y) <= piece.y
      ensures forall z :: old(piece.y) < z <= piece.y ==> Fits(grid, piece.shape, piece.x, z)
      ensures !Fits(grid, piece.shape, piece.x, piece.y + 1)
    {
      var g, s, x, y0 := grid, piece.shape, piece.x, piece.y;
      var moved := Move(0, 1);
      if moved {
        FitsAboveFloor(g, s, x, piece.y);
      }
      while moved
        invariant Valid() && piece.x == x && y0 <= piece.y
        invariant forall z :: y0 < z <= piece.y ==> Fits(g, s, x, z)
        invariant !moved ==> !Fits(g, s, x, piece.y + 1)
        invariant moved ==> piece.y < GridHeight
        decreases GridHeight - piece.y + (if moved then 1 else 0)
      {
        moved := Move(0, 1);
        if moved {
          FitsAboveFloor(g, s, x, piece.y);
        }
      }
    }

    /** One gravity step, taken when the fall interval has elapsed: the
        active piece moves down a row, or is placed when that row does not
        fit. */
    method Update(elapsed: bool, t: int, r1: int, r2: int)
      requires Valid() && IsKind(t) && IsKind(r1) && IsKind(r2)
      modifies this, piece`x, piece`y
      ensures Valid()
      ensures !elapsed ==> unchanged(this) && unchanged(piece)
      ensures elapsed && Fits(old(grid), old(piece.shape), old(piece.x), old(piece.y) + 1) ==>
        unchanged(this) && piece.y == old(piece.y) + 1 && unchanged(piece`x, piece`shape)
      ensures elapsed && !Fits(old(grid), old(piece.shape), old(piece.x), old(piece.y) + 1) ==>
        unchanged(old(piece)) &&
        Settled(old(piece.shape), old(piece.x), old(piece.y), old(piece.color), t, r1, r2)
    {
      if elapsed {
        ghost var p := piece;
        var moved := Move(0, 1);
        if !moved {
          assert piece == p && unchanged(this, piece, nextPiece);
          PlacePiece(t, r1, r2);
        }
      }
    }
  }
}

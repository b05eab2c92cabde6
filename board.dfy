/** The playfield as a value: a GridHeight x GridWidth matrix of cells
    (0 empty, otherwise a colour id), the collision predicate, the effect of
    locking a piece, row clearing and the landing row of a hard drop. */
module Board {
  import opened Pieces

  type Grid = seq<seq<int>>

  predicate IsGrid(g: Grid) {
    |g| == GridHeight && forall r :: 0 <= r < |g| ==> |g[r]| == GridWidth
  }

  function EmptyRow(): seq<int> {
    seq(GridWidth, _ => 0)
  }

  function EmptyRows(k: nat): Grid {
    seq(k, _ => EmptyRow())
  }

  function EmptyGrid(): (g: Grid)
    ensures IsGrid(g)
  {
    EmptyRows(GridHeight)
  }

  // ---------------------------------------------------------------------
  // Collision

  /** A shape cell may go to column c, row r: inside the side walls, above
      the floor, and either above the top edge or on an empty cell. */
  predicate CellFree(g: Grid, c: int, r: int)
    requires IsGrid(g)
  {
    0 <= c < GridWidth && r < GridHeight && (r < 0 || g[r][c] == 0)
  }

  /** Shape s with its top-left corner at column x, row y collides with
      nothing. */
  predicate Fits(g: Grid, s: Shape, x: int, y: int)
    requires IsGrid(g)
  {
    forall i, j :: 0 <= i < |s| && 0 <= j < |s[i]| && s[i][j] != 0 ==> CellFree(g, x + j, y + i)
  }

  /** Every occupied cell at or below the top edge lies inside the grid, so
      that writing the piece into the grid stays in range. */
  predicate InBounds(s: Shape, x: int, y: int) {
    forall i, j :: 0 <= i < |s| && 0 <= j < |s[i]| && s[i][j] != 0 && y + i >= 0 ==>
      0 <= x + j < GridWidth && y + i < GridHeight
  }

  lemma FitsInBounds(g: Grid, s: Shape, x: int, y: int)
    requires IsGrid(g) && Fits(g, s, x, y)
    ensures InBounds(s, x, y)
  {
  }

  /** A piece that fits has every occupied cell above the floor, so its top
      row is above the floor too. */
  lemma FitsAboveFloor(g: Grid, s: Shape, x: int, y: int)
    requires IsGrid(g) && HasCell(s) && Fits(g, s, x, y)
    ensures y < GridHeight
  {
    var i, j :| 0 <= i < |s| && 0 <= j < |s[i]| && s[i][j] != 0;
    assert CellFree(g, x + j, y + i);
  }

  /** A template no larger than the grid, at its spawn position, fits an
      empty grid. */
  lemma SpawnFitsEmpty(s: Shape)
    requires IsMatrix(s) && |s| <= GridHeight && |s[0]| <= GridWidth
    ensures Fits(EmptyGrid(), s, SpawnX(s), 0)
  {
    var g := EmptyGrid();
    forall i, j | 0 <= i < |s| && 0 <= j < |s[i]| && s[i][j] != 0
      ensures CellFree(g, SpawnX(s) + j, i)
    {
      assert g[i] == EmptyRow();
    }
  }

  // ---------------------------------------------------------------------
  // Locking

  /** Cell (r, c) of the grid lies under an occupied cell of s placed at (x, y). */
  predicate Covers(s: Shape, x: int, y: int, r: int, c: int) {
    0 <= r - y < |s| && 0 <= c - x < |s[r - y]| && s[r - y][c - x] != 0
  }

  /** The grid after writing color into every cell covered by the piece;
      covered cells above the top edge have no grid cell and are dropped. */
  function Lock(g: Grid, s: Shape, x: int, y: int, color: int): (r: Grid)
    requires IsGrid(g)
    ensures IsGrid(r)
  {
    seq(GridHeight, row requires 0 <= row < GridHeight =>
      seq(GridWidth, col requires 0 <= col < GridWidth =>
        if Covers(s, x, y, row, col) then color else g[row][col]))
  }

  /** Seen from the piece: each occupied cell on the grid gets the colour;
      seen from the grid: a cell the piece does not cover keeps its value. */
  lemma LockCells(g: Grid, s: Shape, x: int, y: int, color: int)
    requires IsGrid(g) && InBounds(s, x, y)
    ensures forall i, j :: 0 <= i < |s| && 0 <= j < |s[i]| && s[i][j] != 0 && y + i >= 0 ==>
      Lock(g, s, x, y, color)[y + i][x + j] == color
    ensures forall r, c :: 0 <= r < GridHeight && 0 <= c < GridWidth && !Covers(s, x, y, r, c) ==>
      Lock(g, s, x, y, color)[r][c] == g[r][c]
  {
    var l := Lock(g, s, x, y, color);
    forall i, j | 0 <= i < |s| && 0 <= j < |s[i]| && s[i][j] != 0 && y + i >= 0
      ensures l[y + i][x + j] == color
    {
      assert Covers(s, x, y, y + i, x + j);
    }
  }

  /** Locking a piece that fits onto non-zero colour fills exactly cells that
      were empty. */
  lemma LockFillsEmptyCells(g: Grid, s: Shape, x: int, y: int, color: int)
    requires IsGrid(g) && Fits(g, s, x, y) && color != 0
    ensures forall r, c :: 0 <= r < GridHeight && 0 <= c < GridWidth && Covers(s, x, y, r, c) ==>
      g[r][c] == 0
    ensures forall r, c :: 0 <= r < GridHeight && 0 <= c < GridWidth ==>
      (Lock(g, s, x, y, color)[r][c] != g[r][c] <==> Covers(s, x, y, r, c))
  {
    forall r, c | 0 <= r < GridHeight && 0 <= c < GridWidth && Covers(s, x, y, r, c)
      ensures g[r][c] == 0
    {
      assert CellFree(g, x + (c - x), y + (r - y));
    }
  }

  // ---------------------------------------------------------------------
  // Row clearing

  /** A row without an empty cell. */
  predicate IsFull(row: seq<int>) {
    forall c :: 0 <= c < |row| ==> row[c] != 0
  }

  /** The rows that are not full, in their original order. */
  function NonFull(g: Grid): (k: Grid)
    ensures |k| <= |g|
  {
    if |g| == 0 then []
    else (if IsFull(g[0]) then [] else [g[0]]) + NonFull(g[1..])
  }

  /** The number of full rows. */
  function FullCount(g: Grid): (n: nat)
    ensures n + |NonFull(g)| == |g|
  {
    if |g| == 0 then 0
    else (if IsFull(g[0]) then 1 else 0) + FullCount(g[1..])
  }

  /** The grid after clearing: one empty row on top for every full row,
      then the rows that were not full, in their original order. */
  function Cleared(g: Grid): (r: Grid)
    requires IsGrid(g)
    ensures IsGrid(r)
  {
    assert forall i :: 0 <= i < |NonFull(g)| ==> |NonFull(g)[i]| == GridWidth by {
      NonFullRows(g);
    }
    EmptyRows(FullCount(g)) + NonFull(g)
  }

  /** Every kept row is a row of g that is not full. */
  lemma {:induction false} NonFullRows(g: Grid)
    ensures forall i :: 0 <= i < |NonFull(g)| ==> NonFull(g)[i] in g && !IsFull(NonFull(g)[i])
  {
    if |g| > 0 {
      NonFullRows(g[1..]);
    }
  }

  /** No full row is left after clearing. */
  lemma ClearedNoFullRows(g: Grid)
    requires IsGrid(g)
    ensures forall i :: 0 <= i < GridHeight ==> !IsFull(Cleared(g)[i])
  {
    assert EmptyRow()[0] == 0;
    NonFullRows(g);
  }

  /** Filtering a concatenation filters each part. */
  lemma {:induction false} NonFullAppend(a: Grid, b: Grid)
    ensures NonFull(a + b) == NonFull(a) + NonFull(b)
  {
    if |a| > 0 {
      assert (a + b)[0] == a[0];
      assert (a + b)[1..] == a[1..] + b;
      NonFullAppend(a[1..], b);
    } else {
      assert a + b == b;
    }
  }

  /** Full rows of a concatenation are counted part by part. */
  lemma {:induction false} FullCountAppend(a: Grid, b: Grid)
    ensures FullCount(a + b) == FullCount(a) + FullCount(b)
  {
    if |a| > 0 {
      assert (a + b)[0] == a[0];
      assert (a + b)[1..] == a[1..] + b;
      FullCountAppend(a[1..], b);
    } else {
      assert a + b == b;
    }
  }

  /** A row is kept exactly when it is a row of g that is not full. */
  lemma {:induction false} NonFullKeeps(g: Grid, row: seq<int>)
    ensures row in NonFull(g) <==> row in g && !IsFull(row)
  {
    if |g| > 0 {
      NonFullKeeps(g[1..], row);
      assert g == [g[0]] + g[1..];
    }
  }

  /** Clearing leaves a grid without full rows unchanged, so clearing twice
      is clearing once. */
  lemma ClearedIdempotent(g: Grid)
    requires IsGrid(g)
    ensures FullCount(Cleared(g)) == 0
    ensures Cleared(Cleared(g)) == Cleared(g)
  {
    ClearedNoFullRows(g);
    NoFullRows(Cleared(g));
  }

  lemma {:induction false} NoFullRows(g: Grid)
    requires forall i :: 0 <= i < |g| ==> !IsFull(g[i])
    ensures FullCount(g) == 0 && NonFull(g) == g
  {
    if |g| > 0 {
      NoFullRows(g[1..]);
      assert g == [g[0]] + g[1..];
    }
  }

  /** A row that is not full moves down by the number of full rows below it. */
  lemma ClearedShiftsDown(g: Grid, r: int)
    requires IsGrid(g) && 0 <= r < |g| && !IsFull(g[r])
    ensures r + FullCount(g[r + 1..]) < |g|
    ensures Cleared(g)[r + FullCount(g[r + 1..])] == g[r]
  {
    var above, below := g[..r], g[r + 1..];
    assert g == above + [g[r]] + below;
    NonFullAppend(above + [g[r]], below);
    NonFullAppend(above, [g[r]]);
    FullCountAppend(above + [g[r]], below);
    FullCountAppend(above, [g[r]]);
    assert NonFull([g[r]]) == [g[r]] by {
      assert [g[r]][1..] == [];
    }
    assert FullCount([g[r]]) == 0 by {
      assert [g[r]][1..] == [];
    }
    var k := FullCount(g);
    assert k == FullCount(above) + FullCount(below);
    assert |NonFull(above)| == r - FullCount(above);
    assert Cleared(g) == EmptyRows(k) + NonFull(above) + [g[r]] + NonFull(below);
  }

  // ---------------------------------------------------------------------
  // Hard drop

  /** The row a piece at (x, y) comes to rest in when it moves down one row
      for as long as the next row down fits. */
  function Landing(g: Grid, s: Shape, x: int, y: int): int
    requires IsGrid(g) && HasCell(s)
    decreases GridHeight - y
  {
    if Fits(g, s, x, y + 1) then
      assert y + 1 < GridHeight by { FitsAboveFloor(g, s, x, y + 1); }
      Landing(g, s, x, y + 1)
    else y
  }

  /** The landing row is the first row at or below y whose next row down
      does not fit, and every row passed on the way fits. */
  lemma {:induction false} LandingRests(g: Grid, s: Shape, x: int, y: int)
    requires IsGrid(g) && HasCell(s)
    ensures var r := Landing(g, s, x, y);
      y <= r && !Fits(g, s, x, r + 1) &&
      forall z :: y < z <= r ==> Fits(g, s, x, z)
    decreases GridHeight - y
  {
    if Fits(g, s, x, y + 1) {
      FitsAboveFloor(g, s, x, y + 1);
      LandingRests(g, s, x, y + 1);
    }
  }

  /** Conversely, a row at or below y whose next row down does not fit,
      reached through rows that all fit, is the landing row. */
  lemma {:induction false} LandingAt(g: Grid, s: Shape, x: int, y: int, r: int)
    requires IsGrid(g) && HasCell(s) && y <= r
    requires forall z :: y < z <= r ==> Fits(g, s, x, z)
    requires !Fits(g, s, x, r + 1)
    ensures Landing(g, s, x, y) == r
    decreases r - y
  {
    if y < r {
      assert Fits(g, s, x, y + 1);
      LandingAt(g, s, x, y + 1, r);
    }
  }
}

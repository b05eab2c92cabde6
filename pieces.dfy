/** The falling pieces: the fixed playfield size, the seven tetromino
    templates and their colours, the clockwise quarter turn of a shape
    matrix, and the Tetromino object that the game moves around. */
module Pieces {

  /** Playfield size in cells (columns, rows). */
  const GridWidth := 20
  const GridHeight := 20

  /** A shape matrix; a non-zero cell is occupied. */
  type Shape = seq<seq<int>>

  /** The RGB colour of each kind. A grid cell holding colour id k + 1
      (see ColorId) shows Colors[k]; 0 stands for an empty cell. */
  const Colors: seq<(int, int, int)> := [
    (0, 255, 255),  // cyan
    (255, 255, 0),  // yellow
    (128, 0, 128),  // purple
    (0, 255, 0),    // green
    (255, 0, 0),    // red
    (0, 0, 255),    // blue
    (255, 165, 0)   // orange
  ]

  /** The seven templates, indexed by kind. */
  const Shapes: seq<Shape> := [
    [[1, 1, 1, 1]],
    [[1, 1], [1, 1]],
    [[0, 1, 0], [1, 1, 1]],
    [[0, 1, 1], [1, 1, 0]],
    [[1, 1, 0], [0, 1, 1]],
    [[1, 0, 0], [1, 1, 1]],
    [[0, 0, 1], [1, 1, 1]]
  ]

  predicate IsKind(k: int) {
    0 <= k < |Shapes|
  }

  /** The non-zero cell value that stands for the colour of kind k. */
  function ColorId(k: int): (c: int)
    requires IsKind(k)
    ensures 0 < c <= |Colors| && Colors[c - 1] == Colors[k]
  {
    k + 1
  }

  /** A non-empty rectangular matrix. */
  predicate IsMatrix(s: Shape) {
    |s| > 0 && |s[0]| > 0 && forall i :: 0 <= i < |s| ==> |s[i]| == |s[0]|
  }

  predicate HasCell(s: Shape) {
    exists i, j :: 0 <= i < |s| && 0 <= j < |s[i]| && s[i][j] != 0
  }

  /** Column where a shape spawns: centred horizontally, so a shape no
      wider than the grid spawns between the side walls. */
  function SpawnX(s: Shape): (x: int)
    requires |s| > 0
    ensures |s[0]| <= GridWidth ==> 0 <= x && x + |s[0]| <= GridWidth
  {
    GridWidth / 2 - |s[0]| / 2
  }

  // ---------------------------------------------------------------------
  // Rotation

  /** Length of the shortest row, 0 when there are no rows: the number of
      tuples that zipping the rows together yields. */
  function MinLen(s: Shape): (m: nat)
    ensures forall i :: 0 <= i < |s| ==> m <= |s[i]|
    ensures |s| == 0 ==> m == 0
    ensures |s| > 0 ==> exists i :: 0 <= i < |s| && m == |s[i]|
  {
    if |s| == 0 then 0
    else if |s| == 1 then |s[0]|
    else
      var rest := MinLen(s[1..]);
      assert forall i :: 1 <= i < |s| ==> s[i] == s[1..][i - 1];
      if |s[0]| <= rest then |s[0]| else rest
  }

  /** The first n columns of s, each read from the bottom row up. */
  function Turn(s: Shape, n: nat): (r: Shape)
    requires forall i :: 0 <= i < |s| ==> n <= |s[i]|
  {
    seq(n, c requires 0 <= c < n => seq(|s|, j requires 0 <= j < |s| => s[|s| - 1 - j][c]))
  }

  /** A quarter turn clockwise: the transpose of the rows in reverse order. */
  function Rotated(s: Shape): Shape {
    Turn(s, MinLen(s))
  }

  /** An r x c matrix turns into a c x r matrix whose cell (i, j) is the old
      cell (r - 1 - j, i). */
  lemma RotatedMatrix(s: Shape)
    requires IsMatrix(s)
    ensures var t := Rotated(s);
      IsMatrix(t) && |t| == |s[0]| && |t[0]| == |s| &&
      forall i, j :: 0 <= i < |t| && 0 <= j < |t[i]| ==> t[i][j] == s[|s| - 1 - j][i]
  {
  }

  /** Two quarter turns are a half turn: cell (i, j) comes from (r-1-i, c-1-j). */
  lemma HalfTurn(s: Shape)
    requires IsMatrix(s)
    ensures var h := Rotated(Rotated(s));
      IsMatrix(h) && |h| == |s| && |h[0]| == |s[0]| &&
      forall i, j :: 0 <= i < |h| && 0 <= j < |h[i]| ==> h[i][j] == s[|s| - 1 - i][|s[0]| - 1 - j]
  {
    RotatedMatrix(s);
    RotatedMatrix(Rotated(s));
  }

  /** Four quarter turns give back the original shape. */
  lemma FullTurn(s: Shape)
    requires IsMatrix(s)
    ensures Rotated(Rotated(Rotated(Rotated(s)))) == s
  {
    var h := Rotated(Rotated(s));
    HalfTurn(s);
    HalfTurn(h);
    var f := Rotated(Rotated(h));
    forall i | 0 <= i < |s|
      ensures f[i] == s[i]
    {
      assert |f[i]| == |s[i]|;
      forall j | 0 <= j < |s[i]|
        ensures f[i][j] == s[i][j]
      {
        assert f[i][j] == h[|s| - 1 - i][|s[0]| - 1 - j];
      }
    }
  }

  /** A quarter turn of a matrix with an occupied cell has one too. */
  lemma RotatedHasCell(s: Shape)
    requires IsMatrix(s) && HasCell(s)
    ensures HasCell(Rotated(s))
  {
    var i, j :| 0 <= i < |s| && 0 <= j < |s[i]| && s[i][j] != 0;
    RotatedMatrix(s);
    assert Rotated(s)[j][|s| - 1 - i] == s[i][j];
  }

  // ---------------------------------------------------------------------
  // Occupied-cell count

  function RowCount(row: seq<int>): nat {
    if |row| == 0 then 0 else (if row[0] != 0 then 1 else 0) + RowCount(row[1..])
  }

  function Count(s: Shape): nat {
    if |s| == 0 then 0 else RowCount(s[0]) + Count(s[1..])
  }

  lemma {:induction false} CountAppendRow(s: Shape, row: seq<int>)
    ensures Count(s + [row]) == Count(s) + RowCount(row)
  {
    if |s| == 0 {
      assert s + [row] == [row];
      assert [row][1..] == [];
    } else {
      assert (s + [row])[1..] == s[1..] + [row];
      CountAppendRow(s[1..], row);
    }
  }

  lemma {:induction false} CountNoCells(m: Shape)
    requires forall i :: 0 <= i < |m| ==> |m[i]| == 0
    ensures Count(m) == 0
  {
    if |m| > 0 {
      CountNoCells(m[1..]);
    }
  }

  /** Puts col[i] in front of row i of m. */
  function PrependColumn(col: seq<int>, m: Shape): (r: Shape)
    requires |m| == |col|
  {
    seq(|col|, i requires 0 <= i < |col| => [col[i]] + m[i])
  }

  lemma {:induction false} CountPrependColumn(col: seq<int>, m: Shape)
    requires |m| == |col|
    ensures Count(PrependColumn(col, m)) == RowCount(col) + Count(m)
  {
    if |col| > 0 {
      var p := PrependColumn(col, m);
      assert p[1..] == PrependColumn(col[1..], m[1..]);
      assert p[0][1..] == m[0];
      CountPrependColumn(col[1..], m[1..]);
    }
  }

  lemma {:induction false} TurnCount(s: Shape, n: nat)
    requires forall i :: 0 <= i < |s| ==> |s[i]| == n
    ensures Count(Turn(s, n)) == Count(s)
  {
    if |s| == 0 {
      CountNoCells(Turn(s, n));
    } else {
      var p, last := s[..|s| - 1], s[|s| - 1];
      assert s == p + [last];
      var t, tp := Turn(s, n), Turn(p, n);
      forall c | 0 <= c < n
        ensures t[c] == PrependColumn(last, tp)[c]
      {
        assert forall j :: 1 <= j < |s| ==> t[c][j] == tp[c][j - 1];
      }
      assert t == PrependColumn(last, tp);
      TurnCount(p, n);
      CountPrependColumn(last, tp);
      CountAppendRow(p, last);
    }
  }

  /** A quarter turn neither gains nor loses occupied cells. */
  lemma RotatedCount(s: Shape)
    requires IsMatrix(s)
    ensures Count(Rotated(s)) == Count(s)
  {
    TurnCount(s, |s[0]|);
  }

  lemma {:induction false} CountHasCell(s: Shape)
    requires Count(s) > 0
    ensures HasCell(s)
  {
    if RowCount(s[0]) > 0 {
      RowCountHasCell(s[0]);
      var j :| 0 <= j < |s[0]| && s[0][j] != 0;
      assert s[0][j] != 0;
    } else {
      CountHasCell(s[1..]);
      var i, j :| 0 <= i < |s[1..]| && 0 <= j < |s[1..][i]| && s[1..][i][j] != 0;
      assert s[i + 1][j] != 0;
    }
  }

  lemma {:induction false} RowCountHasCell(row: seq<int>)
    requires RowCount(row) > 0
    ensures exists j :: 0 <= j < |row| && row[j] != 0
  {
    if row[0] == 0 {
      RowCountHasCell(row[1..]);
      var j :| 0 <= j < |row[1..]| && row[1..][j] != 0;
      assert row[j + 1] != 0;
    }
  }

  /** Every template is a matrix of four cells, at most 2 rows by 4 columns. */
  lemma ShapesWellFormed(k: int)
    requires IsKind(k)
    ensures IsMatrix(Shapes[k]) && Count(Shapes[k]) == 4
    ensures |Shapes[k]| <= 2 && |Shapes[k][0]| <= 4
  {
  }

  /** The four orientations of kind k's template, in the order successive
      quarter turns reach them. */
  function Orientations(k: int): seq<Shape>
    requires IsKind(k)
  {
    var s := Shapes[k];
    [s, Rotated(s), Rotated(Rotated(s)), Rotated(Rotated(Rotated(s)))]
  }

  /** Turning an orientation gives an orientation again: the fourth turn
      comes back to the template. */
  lemma OrientationsClosed(k: int, s: Shape)
    requires IsKind(k) && s in Orientations(k)
    ensures Rotated(s) in Orientations(k)
  {
    var o := Orientations(k);
    ShapesWellFormed(k);
    FullTurn(Shapes[k]);
    assert Rotated(o[3]) == o[0];
  }

  /** Every orientation of a template is a rectangular matrix of exactly
      four occupied cells. */
  lemma OrientationsWellFormed(k: int, s: Shape)
    requires IsKind(k) && s in Orientations(k)
    ensures IsMatrix(s) && Count(s) == 4 && HasCell(s)
  {
    var o := Orientations(k);
    ShapesWellFormed(k);
    TurnKeepsFour(o[0]);
    TurnKeepsFour(o[1]);
    TurnKeepsFour(o[2]);
    CountHasCell(s);
  }

  lemma TurnKeepsFour(s: Shape)
    requires IsMatrix(s) && Count(s) == 4
    ensures IsMatrix(Rotated(s)) && Count(Rotated(s)) == 4
  {
    RotatedMatrix(s);
    RotatedCount(s);
  }

  // ---------------------------------------------------------------------

  /** One tetromino: its kind, its current shape, its colour and the grid
      position of its shape's top-left corner. */
  class Tetromino {
    var kind: int
    var shape: Shape
    var color: int
    var x: int
    var y: int

    /** The piece is well formed: a kind, a rectangular shape with an
        occupied cell, and the kind's colour. */
    ghost predicate Valid()
      reads this
    {
      IsKind(kind) && IsMatrix(shape) && HasCell(shape) && color == ColorId(kind)
    }

    /** The shape is one of the four orientations of the kind's template,
        so it has exactly four cells (see OrientationsWellFormed). */
    ghost predicate Oriented()
      reads this
    {
      IsKind(kind) && shape in Orientations(kind)
    }

    /** The state a fresh piece of this kind is created in. */
    predicate AtSpawn()
      reads this
    {
      IsKind(kind) && shape == Shapes[kind] && x == SpawnX(shape) && y == 0
    }

    constructor (k: int)
      requires IsKind(k)
      ensures Valid() && AtSpawn()
      ensures kind == k && shape == Shapes[k] && color == ColorId(k)
      ensures x == GridWidth / 2 - |Shapes[k][0]| / 2 && y == 0
    {
      kind := k;
      shape := Shapes[k];
      color := ColorId(k);
      x := GridWidth / 2 - |Shapes[k][0]| / 2;
      y := 0;
      assert Orientations(k)[0] == Shapes[k];
      OrientationsWellFormed(k, Shapes[k]);
    }

    /** A piece at its spawn position has its template's first orientation. */
    lemma SpawnOriented()
      requires AtSpawn()
      ensures Oriented()
    {
      assert Orientations(kind)[0] == shape;
    }

    /** Turns the shape a quarter clockwise, without checking where it lands. */
    method Rotate()
      modifies this`shape
      ensures shape == Rotated(old(shape))
      ensures old(Valid()) ==> Valid()
      ensures old(Oriented()) ==> Oriented()
    {
      ghost var was := shape;
      shape := Rotated(shape);
      if IsMatrix(was) && HasCell(was) {
        RotatedMatrix(was);
        RotatedHasCell(was);
      }
      if IsKind(kind) && was in Orientations(kind) {
        OrientationsClosed(kind, was);
      }
    }
  }
}

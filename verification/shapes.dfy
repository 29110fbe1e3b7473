/**
 * The tetromino templates (script.js, the `tetrominoes` table) and the
 * clockwise rotation that `rotatePiece` computes for a shape matrix.
 */
module Shapes {

  /** A shape matrix: `true` is an occupied (1) cell, `false` an empty (0) one. */
  type Shape = seq<seq<bool>>

  /** The colour a template paints into the board. */
  datatype Color = Cyan | Yellow | Purple | Red | Green | Blue | Orange

  /** The catalog has seven entries; the random pick is an index below this. */
  const TemplateCount := 7

  /** The value of `Math.floor(Math.random() * tetrominoes.length)`. */
  type PieceIndex = i: int | 0 <= i < TemplateCount

  /** The seven shapes as the catalog starts out: I, O, T, Z, S, J, L. */
  function Catalog(): (c: seq<Shape>)
    ensures |c| == TemplateCount
  {
    [
      [[true, true, true, true]],
      [[true, true], [true, true]],
      [[false, true, false], [true, true, true]],
      [[true, true, false], [false, true, true]],
      [[false, true, true], [true, true, false]],
      [[true, false, false], [true, true, true]],
      [[false, false, true], [true, true, true]]
    ]
  }

  /** The colour of each template; rotation never changes it. */
  function ColorOf(i: PieceIndex): Color
  {
    [Cyan, Yellow, Purple, Red, Green, Blue, Orange][i]
  }

  /** A non-empty first row, and every row as long as the first one. */
  predicate Rectangular(s: Shape)
  {
    |s| > 0 && |s[0]| > 0 && forall r :: 0 <= r < |s| ==> |s[r]| == |s[0]|
  }

  /** Cell (r, c) of the matrix exists and holds a 1. */
  predicate Occupied(s: Shape, r: int, c: int)
  {
    0 <= r < |s| && 0 <= c < |s[r]| && s[r][c]
  }

  /** Some cell of the matrix is occupied. */
  ghost predicate HasCell(s: Shape)
  {
    exists r, c :: Occupied(s, r, c)
  }

  /**
   * What every shape the catalog ever holds satisfies: a rectangle of at
   * most 4 by 4 cells with at least one occupied cell.
   */
  ghost predicate WellShaped(s: Shape)
  {
    Rectangular(s) && |s| <= 4 && |s[0]| <= 4 && HasCell(s)
  }

  /** `shape.map(row => row[i])`: column i, top to bottom. */
  function Column(s: Shape, i: nat): (col: seq<bool>)
    requires Rectangular(s) && i < |s[0]|
    ensures |col| == |s|
  {
    seq(|s|, r requires 0 <= r < |s| => s[r][i])
  }

  /** `Array.prototype.reverse`, as a value: element k is the element k places from the end. */
  function Reverse<T>(xs: seq<T>): (r: seq<T>)
    ensures |r| == |xs|
  {
    seq(|xs|, k requires 0 <= k < |xs| => xs[|xs| - 1 - k])
  }

  /**
   * `shape[0].map((_, i) => shape.map(row => row[i]).reverse())`: row i of
   * the result is column i of the shape read bottom to top.
   */
  function Rotated(s: Shape): (r: Shape)
    requires Rectangular(s)
    ensures Rectangular(r) && |r| == |s[0]| && |r[0]| == |s|
  {
    var r := seq(|s[0]|, i requires 0 <= i < |s[0]| => Reverse(Column(s, i)));
    assert forall i :: 0 <= i < |r| ==> r[i] == Reverse(Column(s, i)) && |r[i]| == |s|;
    r
  }

  /** The matrix turned by half a circle: upside down and mirrored. */
  function HalfTurn(s: Shape): (r: Shape)
    requires Rectangular(s)
    ensures Rectangular(r) && |r| == |s| && |r[0]| == |s[0]|
  {
    var r := seq(|s|, i requires 0 <= i < |s| =>
      seq(|s[0]|, j requires 0 <= j < |s[0]| => s[|s| - 1 - i][|s[0]| - 1 - j]));
    assert forall i :: 0 <= i < |r| ==> |r[i]| == |s[0]|;
    r
  }

  /** Two rectangular matrices of the same size with the same cells are the same matrix. */
  lemma SameMatrix(a: Shape, b: Shape)
    requires Rectangular(a) && Rectangular(b) && |a| == |b| && |a[0]| == |b[0]|
    requires forall i, j :: 0 <= i < |a| && 0 <= j < |a[0]| ==> a[i][j] == b[i][j]
    ensures a == b
  {
    forall i | 0 <= i < |a|
      ensures a[i] == b[i]
    {
      assert forall j :: 0 <= j < |a[i]| ==> a[i][j] == b[i][j];
    }
  }

  /** One cell of the clockwise rotation: the result's cell (i, j) is the shape's cell (rows - 1 - j, i). */
  lemma RotatedCell(s: Shape, i: nat, j: nat)
    requires Rectangular(s) && i < |s[0]| && j < |s|
    ensures |Rotated(s)[i]| == |s|
    ensures Rotated(s)[i][j] == s[|s| - 1 - j][i]
  {
  }

  /** Rotating twice is the half turn. */
  lemma RotatedTwice(s: Shape)
    requires Rectangular(s)
    ensures Rotated(Rotated(s)) == HalfTurn(s)
  {
    var r1 := Rotated(s);
    var r2 := Rotated(r1);
    var h := HalfTurn(s);
    forall i, j | 0 <= i < |s| && 0 <= j < |s[0]|
      ensures r2[i][j] == h[i][j]
    {
      RotatedCell(r1, i, j);
      RotatedCell(s, |s[0]| - 1 - j, i);
    }
    SameMatrix(r2, h);
  }

  /** Two half turns give back the matrix. */
  lemma HalfTurnTwice(s: Shape)
    requires Rectangular(s)
    ensures HalfTurn(HalfTurn(s)) == s
  {
    var h := HalfTurn(HalfTurn(s));
    forall i | 0 <= i < |s|
      ensures h[i] == s[i]
    {
      assert |h[i]| == |s[i]|;
    }
  }

  /** Four rotations give back the matrix they started from. */
  lemma RotateFourTimes(s: Shape)
    requires Rectangular(s)
    ensures Rotated(Rotated(Rotated(Rotated(s)))) == s
  {
    RotatedTwice(s);
    RotatedTwice(HalfTurn(s));
    HalfTurnTwice(s);
  }

  /** Rotation keeps a shape well shaped: its dimensions swap, and both stay within 1 to 4. */
  lemma RotatedWellShaped(s: Shape)
    requires WellShaped(s)
    ensures WellShaped(Rotated(s))
    ensures |Rotated(s)| == |s[0]| && |Rotated(s)[0]| == |s|
  {
    var r, c :| Occupied(s, r, c);
    RotatedCell(s, c, |s| - 1 - r);
    assert Occupied(Rotated(s), c, |s| - 1 - r);
  }

  /** The set of occupied cells, as (row, column) pairs. */
  function Cells(s: Shape): set<(int, int)>
  {
    set r, c | 0 <= r < |s| && 0 <= c < |s[r]| && s[r][c] :: (r, c)
  }

  /** Where cell p of an n-row shape ends up after a clockwise turn. */
  function Turn(p: (int, int), n: int): (int, int)
  {
    (p.1, n - 1 - p.0)
  }

  /** The image of a set of cells under Turn. */
  function TurnAll(a: set<(int, int)>, n: int): set<(int, int)>
  {
    set p | p in a :: Turn(p, n)
  }

  /** Turn is one-to-one, so it keeps the number of cells. */
  lemma {:induction false} TurnAllSize(a: set<(int, int)>, n: int)
    ensures |TurnAll(a, n)| == |a|
    decreases |a|
  {
    if a != {} {
      var p :| p in a;
      var rest := a - {p};
      TurnAllSize(rest, n);
      assert TurnAll(a, n) == TurnAll(rest, n) + {Turn(p, n)};
      assert Turn(p, n) !in TurnAll(rest, n);
    }
  }

  /** The occupied cells of the rotated shape are exactly the turned occupied cells of the shape. */
  lemma RotatedCellSet(s: Shape)
    requires Rectangular(s)
    ensures Cells(Rotated(s)) == TurnAll(Cells(s), |s|)
  {
    var rot := Rotated(s);
    forall i, j | 0 <= i < |s[0]| && 0 <= j < |s|
      ensures rot[i][j] == s[|s| - 1 - j][i]
    {
      RotatedCell(s, i, j);
    }
    forall q | q in Cells(rot)
      ensures q in TurnAll(Cells(s), |s|)
    {
      var p := (|s| - 1 - q.1, q.0);
      assert p in Cells(s) && Turn(p, |s|) == q;
    }
    forall q | q in TurnAll(Cells(s), |s|)
      ensures q in Cells(rot)
    {
      var p :| p in Cells(s) && Turn(p, |s|) == q;
      assert rot[p.1][|s| - 1 - p.0] == s[p.0][p.1];
    }
  }

  /** Rotation keeps the number of occupied cells. */
  lemma RotationKeepsCellCount(s: Shape)
    requires Rectangular(s)
    ensures |Cells(Rotated(s))| == |Cells(s)|
  {
    RotatedCellSet(s);
    TurnAllSize(Cells(s), |s|);
  }

  /** The catalog as it starts out holds seven well-shaped templates. */
  lemma CatalogWellShaped()
    ensures |Catalog()| == TemplateCount
    ensures forall i :: 0 <= i < |Catalog()| ==> WellShaped(Catalog()[i])
  {
    assert Occupied(Catalog()[0], 0, 0);
    assert Occupied(Catalog()[1], 0, 0);
    assert Occupied(Catalog()[2], 0, 1);
    assert Occupied(Catalog()[3], 0, 0);
    assert Occupied(Catalog()[4], 0, 1);
    assert Occupied(Catalog()[5], 0, 0);
    assert Occupied(Catalog()[6], 0, 2);
  }
}

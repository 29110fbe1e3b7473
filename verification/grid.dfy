/**
 * The board `gridState` (script.js) and what the active piece does to it:
 * the collision test `checkCollision`, the write-back `lockPiece` and the
 * row at which `hardDrop`'s loop stops.
 */
module Grid {
  import opened Shapes

  /** The board is 20 rows of 10 columns. */
  const Rows := 20
  const Cols := 10

  /** Where every new piece starts: `currentPosition = { x: 4, y: 0 }`. */
  const SpawnX := 4
  const SpawnY := 0

  /** A board cell: `0`, or the colour string of the piece that was locked there. */
  datatype Cell = Empty | Filled(color: Color)

  type Row = seq<Cell>
  type Board = seq<Row>

  /** 20 rows of 10 cells each. */
  predicate WellFormed(b: Board)
  {
    |b| == Rows && forall r :: 0 <= r < |b| ==> |b[r]| == Cols
  }

  /** `Array(10).fill(0)` */
  function EmptyRow(): Row
  {
    seq(Cols, _ => Empty)
  }

  /** `Array.from({ length: 20 }, () => Array(10).fill(0))` */
  function EmptyBoard(): Board
  {
    seq(Rows, _ => EmptyRow())
  }

  /** Two 20 by 10 boards with the same cells are the same board. */
  lemma SameCells(a: Board, b: Board)
    requires WellFormed(a) && WellFormed(b)
    requires forall row, col :: 0 <= row < Rows && 0 <= col < Cols ==> a[row][col] == b[row][col]
    ensures a == b
  {
    forall row | 0 <= row < Rows
      ensures a[row] == b[row]
    {
      assert forall col :: 0 <= col < Cols ==> a[row][col] == b[row][col];
    }
  }

  /** The empty board is 20 by 10 and every cell of it is empty. */
  lemma EmptyBoardIsEmpty()
    ensures WellFormed(EmptyBoard())
    ensures forall r, c :: 0 <= r < Rows && 0 <= c < Cols ==> EmptyBoard()[r][c] == Empty
  {
  }

  /**
   * Whether board position (row, col) stops a piece cell: a column outside
   * 0..9, a row at or below 20, a row above the board (there `gridState[y]`
   * is undefined, and undefined !== 0), or a cell that is not 0.
   */
  predicate Blocked(b: Board, row: int, col: int)
    requires WellFormed(b)
  {
    col < 0 || col >= Cols || row >= Rows || row < 0 || b[row][col] != Empty
  }

  /** `row.some((value, dx) => value !== 0 && blocked)` over the cells dx.. of one shape row placed at (px, py). */
  predicate RowHitsFrom(b: Board, row: seq<bool>, px: int, py: int, dx: nat)
    requires WellFormed(b)
    decreases |row| - dx
  {
    dx < |row| && ((row[dx] && Blocked(b, py, px + dx)) || RowHitsFrom(b, row, px, py, dx + 1))
  }

  /** `shape.some((row, dy) => ...)` over the rows dy.. of the shape placed at (px, py). */
  predicate HitsFrom(b: Board, s: Shape, px: int, py: int, dy: nat)
    requires WellFormed(b)
    decreases |s| - dy
  {
    dy < |s| && (RowHitsFrom(b, s[dy], px, py + dy, 0) || HitsFrom(b, s, px, py, dy + 1))
  }

  /** `checkCollision`: the shape with its top-left corner at column px, row py. */
  predicate Collides(b: Board, s: Shape, px: int, py: int)
    requires WellFormed(b)
  {
    HitsFrom(b, s, px, py, 0)
  }

  lemma {:induction false} RowHitsFromIff(b: Board, row: seq<bool>, px: int, py: int, dx: nat)
    requires WellFormed(b)
    ensures RowHitsFrom(b, row, px, py, dx) <==>
      exists k :: dx <= k < |row| && row[k] && Blocked(b, py, px + k)
    decreases |row| - dx
  {
    if dx < |row| {
      RowHitsFromIff(b, row, px, py, dx + 1);
    }
  }

  lemma {:induction false} HitsFromIff(b: Board, s: Shape, px: int, py: int, dy: nat)
    requires WellFormed(b)
    ensures HitsFrom(b, s, px, py, dy) <==>
      exists r, c :: dy <= r && Occupied(s, r, c) && Blocked(b, py + r, px + c)
    decreases |s| - dy
  {
    if dy < |s| {
      HitsFromIff(b, s, px, py, dy + 1);
      RowHitsFromIff(b, s[dy], px, py + dy, 0);
      if RowHitsFrom(b, s[dy], px, py + dy, 0) {
        var k :| 0 <= k < |s[dy]| && s[dy][k] && Blocked(b, py + dy, px + k);
        assert Occupied(s, dy, k);
      }
      if exists r, c :: dy <= r && Occupied(s, r, c) && Blocked(b, py + r, px + c) {
        var r, c :| dy <= r && Occupied(s, r, c) && Blocked(b, py + r, px + c);
        if r == dy {
          assert s[dy][c] && Blocked(b, py + dy, px + c);
        } else {
          assert dy + 1 <= r;
        }
      }
    }
  }

  /**
   * A piece collides exactly when one of its occupied cells lies left of
   * column 0, right of column 9, below row 19, above row 0, or on a cell
   * that is not empty.
   */
  lemma CollidesIff(b: Board, s: Shape, px: int, py: int)
    requires WellFormed(b)
    ensures Collides(b, s, px, py) <==>
      exists r, c :: Occupied(s, r, c) &&
        (px + c < 0 || px + c >= Cols || py + r >= Rows || py + r < 0 || b[py + r][px + c] != Empty)
  {
    HitsFromIff(b, s, px, py, 0);
  }

  /** A piece that does not collide lies on the board, over empty cells only. */
  lemma NotCollidingFits(b: Board, s: Shape, px: int, py: int)
    requires WellFormed(b) && !Collides(b, s, px, py)
    ensures forall r, c :: Occupied(s, r, c) ==>
      0 <= px + c < Cols && 0 <= py + r < Rows && b[py + r][px + c] == Empty
  {
    CollidesIff(b, s, px, py);
  }

  /** A shape of at most 4 by 4 cells never collides at the spawn position of the empty board. */
  lemma SpawnFitsEmptyBoard(s: Shape)
    requires WellShaped(s)
    ensures !Collides(EmptyBoard(), s, SpawnX, SpawnY)
  {
    EmptyBoardIsEmpty();
    CollidesIff(EmptyBoard(), s, SpawnX, SpawnY);
  }

  /** Board cell (row, col) lies under an occupied cell of the shape placed at (px, py). */
  predicate Covered(s: Shape, px: int, py: int, row: int, col: int)
  {
    Occupied(s, row - py, col - px)
  }

  /** The board after `lockPiece` writes the piece's colour under each of its occupied cells. */
  function Locked(b: Board, s: Shape, px: int, py: int, color: Color): (r: Board)
    requires WellFormed(b)
    ensures WellFormed(r)
  {
    seq(Rows, row requires 0 <= row < Rows =>
      seq(Cols, col requires 0 <= col < Cols =>
        if Covered(s, px, py, row, col) then Filled(color) else b[row][col]))
  }

  /**
   * Locking a piece that does not collide paints exactly the cells under its
   * occupied cells, which were all empty, and keeps every other cell, in
   * particular every cell that was already filled.
   */
  lemma LockedCells(b: Board, s: Shape, px: int, py: int, color: Color)
    requires WellFormed(b) && !Collides(b, s, px, py)
    ensures WellFormed(Locked(b, s, px, py, color))
    ensures forall r, c :: Occupied(s, r, c) ==>
      0 <= py + r < Rows && 0 <= px + c < Cols &&
      b[py + r][px + c] == Empty && Locked(b, s, px, py, color)[py + r][px + c] == Filled(color)
    ensures forall row, col :: 0 <= row < Rows && 0 <= col < Cols && !Covered(s, px, py, row, col) ==>
      Locked(b, s, px, py, color)[row][col] == b[row][col]
    ensures forall row, col :: 0 <= row < Rows && 0 <= col < Cols && b[row][col] != Empty ==>
      Locked(b, s, px, py, color)[row][col] == b[row][col]
  {
    NotCollidingFits(b, s, px, py);
    var l := Locked(b, s, px, py, color);
    forall r, c | Occupied(s, r, c)
      ensures l[py + r][px + c] == Filled(color)
    {
      assert Covered(s, px, py, py + r, px + c);
    }
    forall row, col | 0 <= row < Rows && 0 <= col < Cols && b[row][col] != Empty
      ensures l[row][col] == b[row][col]
    {
      assert row == py + (row - py) && col == px + (col - px);
    }
  }

  /** A piece that does not collide has its occupied row r strictly above the floor: py + r < 20. */
  lemma NotCollidingAboveFloor(b: Board, s: Shape, px: int, py: int)
    requires WellFormed(b) && HasCell(s) && !Collides(b, s, px, py)
    ensures py < Rows
  {
    var r, c :| Occupied(s, r, c);
    NotCollidingFits(b, s, px, py);
  }

  /**
   * The row `hardDrop` locks at when it starts from row py: step down while
   * the piece does not collide, then step back up one row.
   */
  function DropFrom(b: Board, s: Shape, px: int, py: int): int
    requires WellFormed(b) && HasCell(s)
    decreases Rows - py
  {
    if Collides(b, s, px, py) then py - 1
    else
      NotCollidingAboveFloor(b, s, px, py);
      DropFrom(b, s, px, py + 1)
  }

  /**
   * From a start that does not collide, the drop stops at the last row of an
   * unbroken run of rows without collision, right above the first row with
   * one; that takes at most 20 steps down.
   */
  lemma {:induction false} DropLanding(b: Board, s: Shape, px: int, py: int)
    requires WellFormed(b) && HasCell(s) && !Collides(b, s, px, py)
    ensures py <= DropFrom(b, s, px, py)
    ensures DropFrom(b, s, px, py) + 1 - py <= Rows
    ensures !Collides(b, s, px, DropFrom(b, s, px, py))
    ensures Collides(b, s, px, DropFrom(b, s, px, py) + 1)
    ensures forall k :: py <= k <= DropFrom(b, s, px, py) ==> !Collides(b, s, px, k)
    decreases Rows - py
  {
    var landing := DropFrom(b, s, px, py);
    NotCollidingAboveFloor(b, s, px, py);
    if !Collides(b, s, px, py + 1) {
      DropLanding(b, s, px, py + 1);
    } else {
      assert DropFrom(b, s, px, py + 1) == py;
    }
    var r, c :| Occupied(s, r, c);
    NotCollidingFits(b, s, px, py);
    NotCollidingFits(b, s, px, landing);
  }
}

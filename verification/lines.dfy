/**
 * `clearLines` (script.js): one bottom-to-top pass over the board that
 * removes each full row it meets and counts them.
 */
module Lines {
  import opened Grid

  /** `row.every(cell => cell !== 0)` */
  predicate Full(row: Row)
  {
    forall c :: 0 <= c < |row| ==> row[c] != Empty
  }

  /** `gridState.splice(r, 1)` followed by `gridState.unshift(Array(10).fill(0))`. */
  function RemoveRow(b: Board, r: nat): (nb: Board)
    requires WellFormed(b) && r < Rows
    ensures WellFormed(nb)
  {
    [EmptyRow()] + b[..r] + b[r + 1..]
  }

  /**
   * Removing row r puts an empty row on top, moves every row above r down
   * by one and leaves every row below r where it was.
   */
  lemma RemoveRowShifts(b: Board, r: nat)
    requires WellFormed(b) && r < Rows
    ensures RemoveRow(b, r)[0] == EmptyRow()
    ensures forall k :: 0 <= k < r ==> RemoveRow(b, r)[k + 1] == b[k]
    ensures forall k :: r < k < Rows ==> RemoveRow(b, r)[k] == b[k]
  {
  }

  /**
   * The `for (let row = 19; row >= 0; row--)` scan of `clearLines` from
   * index `row` down to 0: the board it leaves and the number of rows it
   * removed. After a removal the scan goes on at row - 1, which now holds
   * what was row - 2: the row that moved into the cleared index is not
   * looked at again.
   */
  function ClearScan(b: Board, row: int): (res: (Board, nat))
    requires WellFormed(b) && -1 <= row < Rows
    ensures WellFormed(res.0)
    ensures res.1 <= row + 1
    decreases row + 1
  {
    if row < 0 then (b, 0)
    else if Full(b[row]) then
      var next := ClearScan(RemoveRow(b, row), row - 1);
      (next.0, next.1 + 1)
    else ClearScan(b, row - 1)
  }

  /**
   * One step of the scan at index row, in the terms of the loop of
   * `clearLines`: a full row is spliced out and an empty row put on top,
   * and the scan goes on at row - 1 with one more line counted; any other
   * row is passed over.
   */
  lemma ClearScanStep(b: Board, row: nat)
    requires WellFormed(b) && row < Rows
    ensures Full(b[row]) ==>
      [EmptyRow()] + (b[..row] + b[row + 1..]) == RemoveRow(b, row) &&
      ClearScan(b, row) == (ClearScan(RemoveRow(b, row), row - 1).0, ClearScan(RemoveRow(b, row), row - 1).1 + 1)
    ensures !Full(b[row]) ==> ClearScan(b, row) == ClearScan(b, row - 1)
  {
  }

  /** The whole pass `clearLines` makes, from row 19 up to row 0. */
  function ClearAll(b: Board): (res: (Board, nat))
    requires WellFormed(b)
    ensures WellFormed(res.0) && res.1 <= Rows
  {
    ClearScan(b, Rows - 1)
  }

  /** The scan never touches the rows below the index it starts from. */
  lemma {:induction false} ScanKeepsRowsBelow(b: Board, row: int)
    requires WellFormed(b) && -1 <= row < Rows
    ensures forall k :: row < k < Rows ==> ClearScan(b, row).0[k] == b[k]
    decreases row + 1
  {
    if row >= 0 {
      if Full(b[row]) {
        RemoveRowShifts(b, row);
        ScanKeepsRowsBelow(RemoveRow(b, row), row - 1);
      } else {
        ScanKeepsRowsBelow(b, row - 1);
      }
    }
  }

  /** Going past rows that are not full changes nothing. */
  lemma {:induction false} ScanSkipsRowsNotFull(b: Board, row: int, to: int)
    requires WellFormed(b) && -1 <= to <= row < Rows
    requires forall k :: to < k <= row ==> !Full(b[k])
    ensures ClearScan(b, row) == ClearScan(b, to)
    decreases row - to
  {
    if row > to {
      ScanSkipsRowsNotFull(b, row - 1, to);
    }
  }

  /** With no full row, the board is left as it is and nothing is counted. */
  lemma NoFullRowUnchanged(b: Board)
    requires WellFormed(b)
    requires forall k :: 0 <= k < Rows ==> !Full(b[k])
    ensures ClearAll(b) == (b, 0)
  {
    ScanSkipsRowsNotFull(b, Rows - 1, -1);
  }

  /**
   * With exactly one full row r, the pass removes that row, moves the rows
   * above it down by one, puts an empty row on top and counts one line.
   */
  lemma SingleFullRow(b: Board, r: nat)
    requires WellFormed(b) && r < Rows && Full(b[r])
    requires forall k :: 0 <= k < Rows && k != r ==> !Full(b[k])
    ensures ClearAll(b) == (RemoveRow(b, r), 1)
  {
    ScanSkipsRowsNotFull(b, Rows - 1, r);
    var nb := RemoveRow(b, r);
    RemoveRowShifts(b, r);
    assert !Full(nb[0]) by {
      assert nb[0][0] == Empty;
    }
    forall k | 0 < k <= r - 1
      ensures !Full(nb[k])
    {
      assert nb[k] == b[k - 1];
    }
    ScanSkipsRowsNotFull(nb, r - 1, -1);
  }

  /**
   * Of two adjacent full rows r - 1 and r (with no full row below them),
   * one pass clears only the lower: the upper one moves down into index r
   * and is still full when the pass ends.
   */
  lemma AdjacentFullRows(b: Board, r: nat)
    requires WellFormed(b) && 1 <= r < Rows && Full(b[r]) && Full(b[r - 1])
    requires forall k :: r < k < Rows ==> !Full(b[k])
    ensures ClearAll(b).0[r] == b[r - 1]
    ensures Full(ClearAll(b).0[r])
  {
    ScanSkipsRowsNotFull(b, Rows - 1, r);
    RemoveRowShifts(b, r);
    ScanKeepsRowsBelow(RemoveRow(b, r), r - 1);
  }

  /** Number of non-empty cells in a row. */
  function FilledInRow(row: Row): nat
  {
    if row == [] then 0 else (if row[0] != Empty then 1 else 0) + FilledInRow(row[1..])
  }

  /** Number of non-empty cells in a sequence of rows. */
  function FilledInRows(b: seq<Row>): nat
  {
    if b == [] then 0 else FilledInRow(b[0]) + FilledInRows(b[1..])
  }

  lemma {:induction false} FullRowCount(row: Row)
    requires Full(row)
    ensures FilledInRow(row) == |row|
  {
    if row != [] {
      FullRowCount(row[1..]);
    }
  }

  lemma {:induction false} EmptyCellsCount(row: Row)
    requires forall c :: 0 <= c < |row| ==> row[c] == Empty
    ensures FilledInRow(row) == 0
  {
    if row != [] {
      EmptyCellsCount(row[1..]);
    }
  }

  lemma {:induction false} FilledInRowsConcat(a: seq<Row>, c: seq<Row>)
    ensures FilledInRows(a + c) == FilledInRows(a) + FilledInRows(c)
  {
    if a != [] {
      assert (a + c)[1..] == a[1..] + c;
      FilledInRowsConcat(a[1..], c);
    } else {
      assert a + c == c;
    }
  }

  /** Removing a full row takes exactly 10 filled cells off the board. */
  lemma RemoveFullRowCount(b: Board, r: nat)
    requires WellFormed(b) && r < Rows && Full(b[r])
    ensures FilledInRows(RemoveRow(b, r)) + Cols == FilledInRows(b)
  {
    var above, below := b[..r], b[r + 1..];
    EmptyCellsCount(EmptyRow());
    FullRowCount(b[r]);
    assert FilledInRows([b[r]]) == Cols;
    assert FilledInRows([EmptyRow()]) == 0;
    assert b == (above + [b[r]]) + below;
    FilledInRowsConcat(above + [b[r]], below);
    FilledInRowsConcat(above, [b[r]]);
    assert RemoveRow(b, r) == ([EmptyRow()] + above) + below;
    FilledInRowsConcat([EmptyRow()] + above, below);
    FilledInRowsConcat([EmptyRow()], above);
  }

  /**
   * The pass removes whole full rows and nothing else: the filled cells it
   * leaves plus 10 for each counted line are the filled cells it started with.
   */
  lemma {:induction false} ClearScanCount(b: Board, row: int)
    requires WellFormed(b) && -1 <= row < Rows
    ensures FilledInRows(ClearScan(b, row).0) + Cols * ClearScan(b, row).1 == FilledInRows(b)
    decreases row + 1
  {
    if row >= 0 {
      if Full(b[row]) {
        RemoveFullRowCount(b, row);
        ClearScanCount(RemoveRow(b, row), row - 1);
      } else {
        ClearScanCount(b, row - 1);
      }
    }
  }
}

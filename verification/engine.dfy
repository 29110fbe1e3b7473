/**
 * The engine of script.js as it runs: the globals become the fields of a
 * Game object and each function becomes a method that updates them in
 * place. Every method is proved to leave the state that the matching
 * function of module Rules computes.
 */
module Engine {
  import opened Shapes
  import opened Grid
  import opened Lines
  import opened Rules

  /**
   * The board once `lockPiece` has handled the shape cells before (dy, dx),
   * row by row: each occupied one of them painted, the rest as before.
   */
  ghost function LockedUpTo(b: Board, s: Shape, px: int, py: int, color: Color, dy: int, dx: int): (r: Board)
    requires WellFormed(b)
    ensures WellFormed(r)
  {
    seq(Rows, row requires 0 <= row < Rows =>
      seq(Cols, col requires 0 <= col < Cols =>
        if Covered(s, px, py, row, col) && (row - py < dy || (row - py == dy && col - px < dx))
        then Filled(color) else b[row][col]))
  }

  /** Before the first cell is handled, the board is as it was. */
  lemma LockStart(b: Board, s: Shape, px: int, py: int, color: Color)
    requires WellFormed(b)
    ensures LockedUpTo(b, s, px, py, color, 0, 0) == b
  {
    SameCells(LockedUpTo(b, s, px, py, color, 0, 0), b);
  }

  /** Handling cell (dy, dx) paints it if it is occupied, and nothing else. */
  lemma LockStep(b: Board, s: Shape, px: int, py: int, color: Color, dy: nat, dx: nat)
    requires WellFormed(b) && !Collides(b, s, px, py)
    requires dy < |s| && dx < |s[dy]|
    ensures s[dy][dx] ==> 0 <= py + dy < Rows && 0 <= px + dx < Cols
    ensures LockedUpTo(b, s, px, py, color, dy, dx + 1) ==
      if s[dy][dx] then
        var l := LockedUpTo(b, s, px, py, color, dy, dx);
        l[py + dy := l[py + dy][px + dx := Filled(color)]]
      else LockedUpTo(b, s, px, py, color, dy, dx)
  {
    NotCollidingFits(b, s, px, py);
    var l := LockedUpTo(b, s, px, py, color, dy, dx);
    var next := LockedUpTo(b, s, px, py, color, dy, dx + 1);
    if s[dy][dx] {
      assert Occupied(s, dy, dx);
      var painted := l[py + dy := l[py + dy][px + dx := Filled(color)]];
      forall row, col | 0 <= row < Rows && 0 <= col < Cols
        ensures next[row][col] == painted[row][col]
      {
        if row == py + dy && col == px + dx {
          assert Covered(s, px, py, row, col);
        }
      }
      SameCells(next, painted);
    } else {
      forall row, col | 0 <= row < Rows && 0 <= col < Cols
        ensures next[row][col] == l[row][col]
      {
        if row == py + dy && col == px + dx {
          assert !Covered(s, px, py, row, col);
        }
      }
      SameCells(next, l);
    }
  }

  /** After the last cell of row dy, the next row starts. */
  lemma LockNextRow(b: Board, s: Shape, px: int, py: int, color: Color, dy: nat)
    requires WellFormed(b) && dy < |s|
    ensures LockedUpTo(b, s, px, py, color, dy, |s[dy]|) == LockedUpTo(b, s, px, py, color, dy + 1, 0)
  {
    SameCells(LockedUpTo(b, s, px, py, color, dy, |s[dy]|), LockedUpTo(b, s, px, py, color, dy + 1, 0));
  }

  /** After the last row, every occupied cell has been painted. */
  lemma LockAllRows(b: Board, s: Shape, px: int, py: int, color: Color)
    requires WellFormed(b)
    ensures LockedUpTo(b, s, px, py, color, |s|, 0) == Locked(b, s, px, py, color)
  {
    SameCells(LockedUpTo(b, s, px, py, color, |s|, 0), Locked(b, s, px, py, color));
  }

  class Game {
    /** `gridState` */
    var board: Board
    /** The `shape` field of each `tetrominoes` entry; rotation rewrites them. */
    const catalog: array<Shape>
    /** `currentPiece` is `tetrominoes[current]`, the entry itself, not a copy. */
    var current: PieceIndex
    /** `currentPosition.x` and `currentPosition.y` */
    var x: int
    var y: int
    var score: int
    var lives: int
    var timer: int
    /** `isPaused` */
    var paused: bool

    /** The whole state as a value. */
    ghost function Model(): State
      reads this, catalog
    {
      State(board, catalog[..], current, x, y, score, lives, timer, paused)
    }

    ghost predicate Valid()
      reads this, catalog
    {
      Playable(Model())
    }

    /** The globals as the script declares them, then the `initGame()` call it ends with. */
    constructor (draw: PieceIndex)
      ensures Valid() && fresh(catalog)
      ensures Model() == Initial(draw)
    {
      board := EmptyBoard();
      catalog := new Shape[TemplateCount](i requires 0 <= i < TemplateCount => Catalog()[i]);
      current := 0;
      x, y := SpawnX, SpawnY;
      score, lives, timer, paused := 0, InitialLives, 0, false;
      new;
      assert catalog[..] == Catalog();
      CatalogWellShaped();
      InitGame(draw);
    }

    /**
     * `initGame`: builds the grid, spawns a piece, starts the clock and
     * registers the handlers; of these only the spawn touches the state.
     * On the empty board the spawn never reaches `gameOver`, so `draw` is
     * the only pick it uses.
     */
    method InitGame(draw: PieceIndex)
      requires Settled(Model()) && board == EmptyBoard()
      modifies this
      ensures Model() == Place(old(Model()), draw)
      ensures Valid()
      decreases 1
    {
      SpawnFitsEmptyBoard(catalog[draw]);
      SpawnPiece(draw, draw);
    }

    /**
     * `spawnPiece`: `draw` stands for the random pick; when the new piece
     * collides, `gameOver` restarts the game, whose own spawn picks `redraw`.
     */
    method SpawnPiece(draw: PieceIndex, redraw: PieceIndex)
      requires Settled(Model())
      modifies this
      ensures Model() == AfterSpawn(old(Model()), draw, redraw)
      ensures Valid()
      decreases if board == EmptyBoard() then 0 else 4
    {
      current := draw;
      x, y := SpawnX, SpawnY;
      if Collides(board, catalog[current], x, y) {
        SpawnFitsEmptyBoard(catalog[current]);
        GameOver(redraw);
      }
    }

    /** `gameOver`: stopping the clock, redrawing the grid and the alert leave no trace in the state. */
    method GameOver(draw: PieceIndex)
      requires CatalogOk(catalog[..])
      modifies this
      ensures Model() == AfterGameOver(old(Model()), draw)
      ensures Valid()
      decreases 3
    {
      RestartGame(draw);
    }

    /** `restartGame`: clears the board and the counters, then `initGame`. `isPaused` is not touched. */
    method RestartGame(draw: PieceIndex)
      requires CatalogOk(catalog[..])
      modifies this
      ensures Model() == AfterRestart(old(Model()), draw)
      ensures Valid()
      decreases 2
    {
      board := EmptyBoard();
      score := 0;
      lives := InitialLives;
      timer := 0;
      InitGame(draw);
    }

    /** `movePiece(dx, dy)` */
    method MovePiece(dx: int, dy: int, draw: PieceIndex, redraw: PieceIndex)
      requires Valid()
      modifies this
      ensures Model() == AfterMove(old(Model()), dx, dy, draw, redraw)
      ensures Valid()
    {
      x := x + dx;
      y := y + dy;
      if Collides(board, catalog[current], x, y) {
        x := x - dx;
        y := y - dy;
        if dy == 1 {
          LockPiece();
          ClearLines();
          SpawnPiece(draw, redraw);
        }
      }
    }

    /** `rotatePiece`: writes the rotated matrix into the catalog entry, and the old one back on collision. */
    method RotatePiece()
      requires Valid()
      modifies catalog
      ensures Model() == AfterRotate(old(Model()))
      ensures Valid()
    {
      var rotated := Rotated(catalog[current]);
      var originalShape := catalog[current];
      catalog[current] := rotated;
      if Collides(board, catalog[current], x, y) {
        catalog[current] := originalShape;
      }
    }

    /** `lockPiece`: for each row of the shape, the inner `forEach` below writes its occupied cells into the board. */
    method LockPiece()
      requires Valid()
      modifies this`board
      ensures Model() == AfterLock(old(Model()))
    {
      ghost var before := board;
      var shape := catalog[current];
      var color := ColorOf(current);
      var px, py := x, y;
      LockStart(before, shape, px, py, color);
      var dy := 0;
      while dy < |shape|
        invariant 0 <= dy <= |shape|
        invariant board == LockedUpTo(before, shape, px, py, color, dy, 0)
      {
        LockRow(before, shape, px, py, color, dy);
        dy := dy + 1;
      }
      LockAllRows(before, shape, px, py, color);
    }

    /**
     * The inner `row.forEach` of `lockPiece` for shape row dy: each occupied
     * cell dx sets `gridState[py + dy][px + dx]` to the colour.
     */
    method LockRow(ghost before: Board, shape: Shape, px: int, py: int, color: Color, dy: nat)
      requires WellFormed(before) && !Collides(before, shape, px, py) && dy < |shape|
      requires board == LockedUpTo(before, shape, px, py, color, dy, 0)
      modifies this`board
      ensures board == LockedUpTo(before, shape, px, py, color, dy + 1, 0)
    {
      var dx := 0;
      while dx < |shape[dy]|
        invariant 0 <= dx <= |shape[dy]|
        invariant board == LockedUpTo(before, shape, px, py, color, dy, dx)
      {
        LockStep(before, shape, px, py, color, dy, dx);
        if shape[dy][dx] {
          board := board[py + dy := board[py + dy][px + dx := Filled(color)]];
        }
        dx := dx + 1;
      }
      LockNextRow(before, shape, px, py, color, dy);
    }

    /**
     * `clearLines`: from row 19 up to row 0, removes each full row it finds
     * (splice, then an empty row on top) and counts it; then, when at least
     * one row was removed, scores 100 points per row.
     */
    method ClearLines()
      requires Settled(Model())
      modifies this`board, this`score
      ensures Model() == AfterClear(old(Model()))
    {
      ghost var result := ClearAll(board);
      var linesCleared := 0;
      var row := Rows - 1;
      while row >= 0
        modifies this`board
        invariant -1 <= row < Rows
        invariant WellFormed(board)
        invariant ClearScan(board, row) == (result.0, result.1 - linesCleared)
      {
        ClearScanStep(board, row);
        if Full(board[row]) {
          board := board[..row] + board[row + 1..];
          board := [EmptyRow()] + board;
          linesCleared := linesCleared + 1;
        }
        row := row - 1;
      }
      if linesCleared > 0 {
        score := score + linesCleared * LinePoints;
      }
    }

    /** `hardDrop`: moves down while the piece does not collide, steps back one row, then locks. */
    method HardDrop(draw: PieceIndex, redraw: PieceIndex)
      requires Valid()
      modifies this
      ensures Model() == AfterHardDrop(old(Model()), draw, redraw)
      ensures Valid()
    {
      ghost var landing := DropFrom(board, catalog[current], x, y);
      DropLanding(board, catalog[current], x, y);
      NotCollidingAboveFloor(board, catalog[current], x, y);
      while !Collides(board, catalog[current], x, y)
        modifies this`y
        invariant y <= Rows
        invariant DropFrom(board, catalog[current], x, y) == landing
        decreases Rows - y
      {
        NotCollidingAboveFloor(board, catalog[current], x, y);
        y := y + 1;
      }
      y := y - 1;
      LockPiece();
      ClearLines();
      SpawnPiece(draw, redraw);
    }

    /** `updateGame`, run by the clock once a second. */
    method UpdateGame(draw: PieceIndex, redraw: PieceIndex)
      requires Valid()
      modifies this
      ensures Model() == AfterTick(old(Model()), draw, redraw)
      ensures Valid()
    {
      if !paused {
        MovePiece(0, 1, draw, redraw);
        timer := timer + 1;
      }
    }

    /** `handleKeyPress` */
    method HandleKeyPress(key: Key, draw: PieceIndex, redraw: PieceIndex)
      requires Valid()
      modifies this, catalog
      ensures Model() == AfterKey(old(Model()), key, draw, redraw)
      ensures Valid()
    {
      if paused {
        return;
      }
      match key {
        case ArrowLeft => MovePiece(-1, 0, draw, redraw);
        case ArrowRight => MovePiece(1, 0, draw, redraw);
        case ArrowDown => MovePiece(0, 1, draw, redraw);
        case ArrowUp => RotatePiece();
        case Space => PauseGame();
        case Enter => HardDrop(draw, redraw);
        case OtherKey =>
      }
    }

    /** `pauseGame`; showing or hiding the pause menu is presentation. */
    method PauseGame()
      requires Valid()
      modifies this`paused
      ensures Model() == AfterPause(old(Model()))
      ensures Valid()
    {
      paused := !paused;
    }

    /** `continueGame`, the Continue button: it runs `pauseGame`, so it flips the flag back. */
    method ContinueGame()
      requires Valid()
      modifies this`paused
      ensures Model() == AfterPause(old(Model()))
      ensures Valid()
    {
      PauseGame();
    }
  }
}

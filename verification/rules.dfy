/**
 * The game as values: the whole mutable state of script.js in one record,
 * and for each operation of the engine the state it leaves behind. The
 * class in module Engine performs these operations step by step and is
 * proved to end in exactly these states.
 */
module Rules {
  import opened Shapes
  import opened Grid
  import opened Lines

  /** `lives` starts at 3 and `restartGame` sets it back to 3. */
  const InitialLives := 3

  /** `score += linesCleared * 100` */
  const LinePoints := 100

  /**
   * The globals the engine reads and writes: `gridState`, the shapes held
   * by the `tetrominoes` entries, which entry `currentPiece` is, the
   * origin `currentPosition`, and `score`, `lives`, `timer`, `isPaused`.
   */
  datatype State = State(
    board: Board,
    shapes: seq<Shape>,
    current: PieceIndex,
    x: int,
    y: int,
    score: int,
    lives: int,
    timer: int,
    paused: bool)

  /** The values of `event.key` that `handleKeyPress` tells apart; any other key is OtherKey. */
  datatype Key = ArrowLeft | ArrowRight | ArrowDown | ArrowUp | Space | Enter | OtherKey

  /** Seven templates, each a well-shaped matrix. */
  ghost predicate CatalogOk(shapes: seq<Shape>)
  {
    |shapes| == TemplateCount && forall i :: 0 <= i < |shapes| ==> WellShaped(shapes[i])
  }

  /**
   * What holds between operations even while a locked piece is still
   * recorded as current: a 20 by 10 board, a sound catalog, a score that
   * is a non-negative multiple of 100, lives at 3 (nothing decrements
   * them) and a non-negative timer.
   */
  ghost predicate Settled(s: State)
  {
    WellFormed(s.board) && CatalogOk(s.shapes) &&
    s.score >= 0 && s.score % LinePoints == 0 &&
    s.lives == InitialLives && s.timer >= 0
  }

  /** The shape of the active piece: the catalog entry `currentPiece` points at. */
  function Piece(s: State): Shape
    requires |s.shapes| == TemplateCount
  {
    s.shapes[s.current]
  }

  /** What holds whenever the game waits for input: also, the active piece lies on the board over empty cells. */
  ghost predicate Playable(s: State)
  {
    Settled(s) && !Collides(s.board, Piece(s), s.x, s.y)
  }

  /** Lines 54-56 of `spawnPiece`: pick the template and put the piece at column 4, row 0. */
  function Place(s: State, draw: PieceIndex): State
  {
    s.(current := draw, x := SpawnX, y := SpawnY)
  }

  /**
   * `restartGame`: an empty board, score 0, lives 3, timer 0, then
   * `initGame` spawns a piece. That spawn cannot collide on the empty board,
   * so its game-over branch is never taken. `isPaused` and the catalog
   * shapes are left as they are.
   */
  function AfterRestart(s: State, draw: PieceIndex): (r: State)
    requires CatalogOk(s.shapes)
    ensures Playable(r)
  {
    SpawnFitsEmptyBoard(s.shapes[draw]);
    Place(s.(board := EmptyBoard(), score := 0, lives := InitialLives, timer := 0), draw)
  }

  /** `gameOver`: apart from the timer, the grid styles and the alert, it is `restartGame`. */
  function AfterGameOver(s: State, draw: PieceIndex): (r: State)
    requires CatalogOk(s.shapes)
    ensures Playable(r)
  {
    AfterRestart(s, draw)
  }

  /**
   * `spawnPiece` with `draw` as the random pick; if the new piece collides,
   * `gameOver` restarts the game, and the restart's own spawn uses `redraw`.
   */
  function AfterSpawn(s: State, draw: PieceIndex, redraw: PieceIndex): (r: State)
    requires Settled(s)
    ensures Playable(r)
  {
    var placed := Place(s, draw);
    if Collides(placed.board, Piece(placed), placed.x, placed.y) then AfterGameOver(placed, redraw)
    else placed
  }

  /** `lockPiece`: the active piece's colour is written into the board under its occupied cells. */
  function AfterLock(s: State): (r: State)
    requires Playable(s)
    ensures Settled(r)
  {
    s.(board := Locked(s.board, Piece(s), s.x, s.y, ColorOf(s.current)))
  }

  /** `clearLines`: one pass of the row scan, then 100 points per removed row. */
  function AfterClear(s: State): (r: State)
    requires Settled(s)
    ensures Settled(r)
  {
    var cleared := ClearAll(s.board);
    s.(board := cleared.0,
       score := if cleared.1 > 0 then s.score + cleared.1 * LinePoints else s.score)
  }

  /**
   * `movePiece(dx, dy)`: the origin moves by (dx, dy) unless the piece would
   * collide there; a rejected move with dy = 1 locks the piece, clears
   * lines and spawns the next piece.
   */
  function AfterMove(s: State, dx: int, dy: int, draw: PieceIndex, redraw: PieceIndex): (r: State)
    requires Playable(s)
    ensures Playable(r)
  {
    if !Collides(s.board, Piece(s), s.x + dx, s.y + dy) then s.(x := s.x + dx, y := s.y + dy)
    else if dy == 1 then AfterSpawn(AfterClear(AfterLock(s)), draw, redraw)
    else s
  }

  /**
   * `rotatePiece`: the rotated matrix replaces the shape of the catalog
   * entry the piece points at, and is put back if it collides.
   */
  function AfterRotate(s: State): (r: State)
    requires Playable(s)
    ensures Playable(r)
  {
    RotatedWellShaped(Piece(s));
    var turned := Rotated(Piece(s));
    if Collides(s.board, turned, s.x, s.y) then s
    else s.(shapes := s.shapes[s.current := turned])
  }

  /** `hardDrop`: down to the row the drop loop stops at, then lock, clear lines and spawn. */
  function AfterHardDrop(s: State, draw: PieceIndex, redraw: PieceIndex): (r: State)
    requires Playable(s)
    ensures Playable(r)
  {
    DropLanding(s.board, Piece(s), s.x, s.y);
    var landed := s.(y := DropFrom(s.board, Piece(s), s.x, s.y));
    AfterSpawn(AfterClear(AfterLock(landed)), draw, redraw)
  }

  /** `updateGame`: unless paused, one gravity step and then `timer++`. */
  function AfterTick(s: State, draw: PieceIndex, redraw: PieceIndex): (r: State)
    requires Playable(s)
    ensures Playable(r)
  {
    if s.paused then s
    else
      var moved := AfterMove(s, 0, 1, draw, redraw);
      moved.(timer := moved.timer + 1)
  }

  /** `pauseGame` (also what the Continue button runs): flips `isPaused`. */
  function AfterPause(s: State): (r: State)
    requires Playable(s)
    ensures Playable(r)
  {
    s.(paused := !s.paused)
  }

  /** `handleKeyPress`: every key is ignored while paused; otherwise the key picks the operation. */
  function AfterKey(s: State, key: Key, draw: PieceIndex, redraw: PieceIndex): (r: State)
    requires Playable(s)
    ensures Playable(r)
  {
    if s.paused then s
    else
      match key
      case ArrowLeft => AfterMove(s, -1, 0, draw, redraw)
      case ArrowRight => AfterMove(s, 1, 0, draw, redraw)
      case ArrowDown => AfterMove(s, 0, 1, draw, redraw)
      case ArrowUp => AfterRotate(s)
      case Space => AfterPause(s)
      case Enter => AfterHardDrop(s, draw, redraw)
      case OtherKey => s
  }

  /** The state after the page loads: the initial globals, then `initGame`'s spawn. */
  function Initial(draw: PieceIndex): (s: State)
    ensures Playable(s)
  {
    CatalogWellShaped();
    SpawnFitsEmptyBoard(Catalog()[draw]);
    Place(State(EmptyBoard(), Catalog(), 0, SpawnX, SpawnY, 0, InitialLives, 0, false), draw)
  }

  // ----- Properties of the operations -----

  /** A move that does not collide shifts the origin by exactly (dx, dy); nothing else changes. */
  lemma MoveAccepted(s: State, dx: int, dy: int, draw: PieceIndex, redraw: PieceIndex)
    requires Playable(s) && !Collides(s.board, Piece(s), s.x + dx, s.y + dy)
    ensures AfterMove(s, dx, dy, draw, redraw) == s.(x := s.x + dx, y := s.y + dy)
  {
  }

  /** A rejected move that is not one row down has no effect at all. */
  lemma MoveRejectedSideways(s: State, dx: int, dy: int, draw: PieceIndex, redraw: PieceIndex)
    requires Playable(s) && Collides(s.board, Piece(s), s.x + dx, s.y + dy) && dy != 1
    ensures AfterMove(s, dx, dy, draw, redraw) == s
  {
  }

  /**
   * A rejected move one row down locks the piece where it is, clears lines,
   * scores 100 per line and spawns the `draw` piece at column 4, row 0; if
   * that piece collides, the game restarts with the `redraw` piece instead.
   */
  lemma MoveRejectedDown(s: State, dx: int, draw: PieceIndex, redraw: PieceIndex)
    requires Playable(s) && Collides(s.board, Piece(s), s.x + dx, s.y + 1)
    ensures var cleared := ClearAll(Locked(s.board, Piece(s), s.x, s.y, ColorOf(s.current)));
      AfterMove(s, dx, 1, draw, redraw) ==
        if !Collides(cleared.0, s.shapes[draw], SpawnX, SpawnY) then
          s.(board := cleared.0, score := s.score + LinePoints * cleared.1, current := draw, x := SpawnX, y := SpawnY)
        else
          s.(board := EmptyBoard(), score := 0, timer := 0, current := redraw, x := SpawnX, y := SpawnY)
  {
  }

  /** Rotation only ever changes the shape of the active catalog entry, and keeps its number of cells. */
  lemma RotateKeepsTheRest(s: State)
    requires Playable(s)
    ensures var r := AfterRotate(s);
      r == s.(shapes := r.shapes) &&
      |r.shapes| == |s.shapes| &&
      (forall i :: 0 <= i < |s.shapes| && i != s.current ==> r.shapes[i] == s.shapes[i]) &&
      |Cells(Piece(r))| == |Cells(Piece(s))|
  {
    RotationKeepsCellCount(Piece(s));
  }

  /** A rotation whose result collides leaves the state, and so the shape, exactly as before. */
  lemma RotateRejected(s: State)
    requires Playable(s) && Collides(s.board, Rotated(Piece(s)), s.x, s.y)
    ensures AfterRotate(s) == s
  {
  }

  /** A rotation that does not collide replaces the active entry's shape by its rotation and changes nothing else. */
  lemma RotateAccepted(s: State)
    requires Playable(s) && !Collides(s.board, Rotated(Piece(s)), s.x, s.y)
    ensures AfterRotate(s) == s.(shapes := s.shapes[s.current := Rotated(Piece(s))])
    ensures Piece(AfterRotate(s)) == Rotated(Piece(s))
  {
  }

  /** Two accepted rotations in a row turn the active entry's shape upside down and change nothing else. */
  lemma TwoRotations(s: State)
    requires Playable(s)
    requires !Collides(s.board, Rotated(Piece(s)), s.x, s.y)
    requires !Collides(s.board, Rotated(Rotated(Piece(s))), s.x, s.y)
    ensures AfterRotate(AfterRotate(s)) == s.(shapes := s.shapes[s.current := Rotated(Rotated(Piece(s)))])
  {
    RotateAccepted(s);
    RotateAccepted(AfterRotate(s));
  }

  /**
   * Four rotations give back the state they started from when the first
   * three are accepted: the fourth brings back the original shape, which
   * fits where the piece is.
   */
  lemma FourRotationsRestore(s: State)
    requires Playable(s)
    requires !Collides(s.board, Rotated(Piece(s)), s.x, s.y)
    requires !Collides(s.board, Rotated(Rotated(Piece(s))), s.x, s.y)
    requires !Collides(s.board, Rotated(Rotated(Rotated(Piece(s)))), s.x, s.y)
    ensures AfterRotate(AfterRotate(AfterRotate(AfterRotate(s)))) == s
  {
    var p := Piece(s);
    TwoRotations(s);
    var half := AfterRotate(AfterRotate(s));
    assert Piece(half) == Rotated(Rotated(p));
    RotateFourTimes(p);
    TwoRotations(half);
    assert s.shapes[s.current := p] == s.shapes;
  }

  /** The pass of `clearLines` adds exactly 100 points per removed row; with no full row it changes nothing. */
  lemma ClearScores(s: State)
    requires Settled(s)
    ensures AfterClear(s).score == s.score + LinePoints * ClearAll(s.board).1
    ensures (forall k :: 0 <= k < Rows ==> !Full(s.board[k])) ==> AfterClear(s) == s
  {
    if forall k :: 0 <= k < Rows ==> !Full(s.board[k]) {
      NoFullRowUnchanged(s.board);
    }
  }

  /**
   * Hard drop is the same as a soft drop repeated until one is rejected:
   * if the row below collides, a hard drop is a rejected move down;
   * otherwise it is a hard drop from one row lower.
   */
  lemma HardDropIsRepeatedSoftDrop(s: State, draw: PieceIndex, redraw: PieceIndex)
    requires Playable(s)
    ensures AfterHardDrop(s, draw, redraw) ==
      if Collides(s.board, Piece(s), s.x, s.y + 1) then AfterMove(s, 0, 1, draw, redraw)
      else AfterHardDrop(AfterMove(s, 0, 1, draw, redraw), draw, redraw)
  {
    NotCollidingAboveFloor(s.board, Piece(s), s.x, s.y);
    var landing := DropFrom(s.board, Piece(s), s.x, s.y);
    if Collides(s.board, Piece(s), s.x, s.y + 1) {
      assert DropFrom(s.board, Piece(s), s.x, s.y + 1) == s.y;
      assert landing == s.y;
    } else {
      var moved := s.(y := s.y + 1);
      assert AfterMove(s, 0, 1, draw, redraw) == moved;
      assert DropFrom(moved.board, Piece(moved), moved.x, moved.y) == landing;
      assert moved.(y := landing) == s.(y := landing);
    }
  }

  /** While paused, a tick changes nothing. */
  lemma TickWhilePaused(s: State, draw: PieceIndex, redraw: PieceIndex)
    requires Playable(s) && s.paused
    ensures AfterTick(s, draw, redraw) == s
  {
  }

  /** An unpaused tick is one gravity step followed by adding exactly 1 to the timer. */
  lemma TickCountsOne(s: State, draw: PieceIndex, redraw: PieceIndex)
    requires Playable(s) && !s.paused
    ensures AfterTick(s, draw, redraw).timer == AfterMove(s, 0, 1, draw, redraw).timer + 1
    ensures AfterTick(s, draw, redraw).(timer := 0) == AfterMove(s, 0, 1, draw, redraw).(timer := 0)
  {
  }

  /**
   * A tick whose gravity step ends in game over leaves the timer at 1: the
   * restart sets it to 0 before `updateGame` adds one.
   */
  lemma TickIntoGameOver(s: State, draw: PieceIndex, redraw: PieceIndex)
    requires Playable(s) && !s.paused
    requires Collides(s.board, Piece(s), s.x, s.y + 1)
    requires Collides(ClearAll(Locked(s.board, Piece(s), s.x, s.y, ColorOf(s.current))).0, s.shapes[draw], SpawnX, SpawnY)
    ensures AfterTick(s, draw, redraw).timer == 1
    ensures AfterTick(s, draw, redraw).board == EmptyBoard() && AfterTick(s, draw, redraw).score == 0
  {
    MoveRejectedDown(s, 0, draw, redraw);
  }

  /** While paused, every key, the space bar included, changes nothing. */
  lemma KeyWhilePaused(s: State, key: Key, draw: PieceIndex, redraw: PieceIndex)
    requires Playable(s) && s.paused
    ensures AfterKey(s, key, draw, redraw) == s
  {
  }

  /** The space bar pauses a running game; only the Continue button (`pauseGame` again) resumes it. */
  lemma SpacePausesContinueResumes(s: State, draw: PieceIndex, redraw: PieceIndex)
    requires Playable(s) && !s.paused
    ensures AfterKey(s, Space, draw, redraw) == s.(paused := true)
    ensures AfterPause(AfterKey(s, Space, draw, redraw)) == s
  {
  }

  /**
   * Whatever the state before, a restart leaves an empty board, score 0,
   * lives 3, timer 0 and a new piece at column 4, row 0; `isPaused` and the
   * catalog are kept. Restarting again gives the same state.
   */
  lemma RestartResets(s: State, draw: PieceIndex)
    requires CatalogOk(s.shapes)
    ensures var r := AfterRestart(s, draw);
      r.board == EmptyBoard() && r.score == 0 && r.lives == InitialLives && r.timer == 0 &&
      r.paused == s.paused && r.shapes == s.shapes &&
      r.current == draw && r.x == SpawnX && r.y == SpawnY
    ensures AfterRestart(AfterRestart(s, draw), draw) == AfterRestart(s, draw)
  {
  }

  /** A spawn that collides always ends in the restart state; one that does not only places the piece. */
  lemma SpawnOutcomes(s: State, draw: PieceIndex, redraw: PieceIndex)
    requires Settled(s)
    ensures Collides(s.board, s.shapes[draw], SpawnX, SpawnY) ==>
      AfterSpawn(s, draw, redraw) == AfterRestart(s, redraw)
    ensures !Collides(s.board, s.shapes[draw], SpawnX, SpawnY) ==>
      AfterSpawn(s, draw, redraw) == s.(current := draw, x := SpawnX, y := SpawnY)
  {
  }
}

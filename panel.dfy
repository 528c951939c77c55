/** GameBoardPanel as an object: the board array, the current piece object,
    the anchor, score, interval and flags are fields its methods update in
    place. Each method is proved to leave exactly the state the matching
    transition of module Engine computes from the state it started in. */
module Panel {
  import opened Tetrominoes
  import opened Board
  import opened Engine

  class GameBoardPanel {
    var gameBoard: array<Shape>
    var curBlock: Tetromino
    var curX: int
    var curY: int
    var currentScore: int
    var currentTimerResolution: int
    var isFallingDone: bool
    var isStarted: bool
    var isPaused: bool
    /** Whether the Swing timer is running; its delay is `currentTimerResolution`. */
    var timerRunning: bool

    ghost predicate Valid()
      reads this`gameBoard, this`curBlock, curBlock
    {
      gameBoard.Length == Cells && curBlock.Valid()
    }

    /** The panel's fields as a value of the game model. */
    ghost function State(): Game
      requires Valid()
      reads this, gameBoard, curBlock, curBlock.coords
    {
      Game(gameBoard[..], curBlock.Value(), curX, curY, currentScore, currentTimerResolution,
           isFallingDone, isStarted, isPaused, timerRunning)
    }

    /** The constructor: a NoBlock piece, a timer started with the given
        interval, and a cleared board. */
    constructor (timerResolution: int)
      ensures Valid() && fresh(gameBoard) && fresh(curBlock) && fresh(curBlock.coords)
      ensures State() == Initial(timerResolution)
    {
      curBlock := new Tetromino();
      timerRunning := true;
      currentTimerResolution := timerResolution;
      gameBoard := new Shape[Cells];
      isFallingDone, isStarted, isPaused := false, false, false;
      currentScore, curX, curY := 0, 0, 0;
      new;
      InitBoard();
    }

    /** `setResolution`: the interval for the current score's level. */
    method SetResolution()
      requires Valid()
      modifies this`currentTimerResolution
      ensures State() == old(State()).(interval := Resolution(old(currentScore)))
    {
      var level := JavaDiv(currentScore, 10);
      currentTimerResolution :=
        match level
        case 10 => 100
        case 9 => 130
        case 8 => 160
        case 7 => 190
        case 6 => 220
        case 5 => 250
        case 4 => 280
        case 3 => 310
        case 2 => 340
        case _ => InitialTimerResolution;
    }

    /** `initBoard`: every cell becomes NoBlock. */
    method InitBoard()
      requires gameBoard.Length == Cells
      modifies gameBoard
      ensures gameBoard[..] == EmptyGrid()
    {
      for i := 0 to Cells
        invariant forall j :: 0 <= j < i ==> gameBoard[j] == NoBlock
      {
        gameBoard[i] := NoBlock;
      }
    }

    /** `curTetrominoPos`: the tag at index y * Width + x, which for a board
        cell is the cell's tag. */
    method CurTetrominoPos(x: int, y: int) returns (s: Shape)
      requires Valid() && 0 <= y * Width + x < Cells
      ensures InBoard(x, y) ==> s == CellAt(gameBoard[..], x, y)
      ensures s == gameBoard[..][y * Width + x]
    {
      s := gameBoard[y * Width + x];
    }

    /** `isFullLine`: whether no cell of the row holds NoBlock. */
    method IsFullLine(row: int) returns (full: bool)
      requires Valid() && 0 <= row < Height
      ensures full == RowFull(gameBoard[..], row)
    {
      for j := 0 to Width
        invariant forall k :: 0 <= k < j ==> CellAt(gameBoard[..], k, row) != NoBlock
      {
        var s := CurTetrominoPos(j, row);
        if s == NoBlock {
          return false;
        }
      }
      return true;
    }

    /** `shiftLinesDown`: rows fromRow .. Height - 2 receive the row above them,
        in place and from the bottom up, so each read sees the old contents. */
    method ShiftLinesDown(fromRow: int)
      requires Valid() && 0 <= fromRow < Height
      modifies gameBoard
      ensures gameBoard[..] == ShiftedDown(old(gameBoard[..]), fromRow)
    {
      ghost var b := gameBoard[..];
      ghost var lo := fromRow * Width;
      assert lo == 10 * fromRow;
      assert gameBoard[..] == ShiftedBelow(b, lo, lo);
      for k := fromRow to Height - 1
        invariant gameBoard[..] == ShiftedBelow(b, lo, k * Width)
      {
        assert k * Width == 10 * k && (k + 1) * Width == 10 * k + 10;
        for l := 0 to Width
          invariant gameBoard[..] == ShiftedBelow(b, lo, k * Width + l)
        {
          var s := CurTetrominoPos(l, k + 1);
          gameBoard[k * Width + l] := s;
          assert gameBoard[..] == ShiftedBelow(b, lo, k * Width + l + 1);
        }
      }
      assert gameBoard[..] == ShiftedDown(b, fromRow);
    }

    /** The board part-way through `shiftLinesDown`: the cells from index `lo`
        up to `n` hold the cell one row above, the rest are as before. */
    ghost function ShiftedBelow(b: Grid, lo: int, n: int): (r: Grid)
      requires |b| == Cells && 0 <= lo && n <= (Height - 1) * Width
    {
      seq(Cells, i requires 0 <= i < Cells => if lo <= i < n then b[i + Width] else b[i])
    }

    /** `removeFullLines`: scan from the top row down, shifting over each full
        row; then, if any row was full, add the count to the score, mark the
        fall done, clear the piece and set the interval. */
    method RemoveFullLines()
      requires Valid()
      modifies this`currentScore, this`isFallingDone, this`currentTimerResolution
      modifies gameBoard, curBlock, curBlock.coords
      ensures Valid() && curBlock.coords == old(curBlock.coords)
      ensures State() == LinesRemoved(old(State()))
    {
      ghost var g := State();
      var fullLines: nat := 0;
      var i := Height - 1;
      while i >= 0
        modifies gameBoard
        invariant -1 <= i < Height
        invariant ClearFrom(gameBoard[..], i, fullLines) == Cleared(g.board)
        decreases i + 1
      {
        var full := IsFullLine(i);
        if full {
          fullLines := fullLines + 1;
          ShiftLinesDown(i);
        }
        i := i - 1;
      }
      assert State() == g.(board := Cleared(g.board).0);
      if fullLines > 0 {
        currentScore := currentScore + fullLines;
        isFallingDone := true;
        curBlock.SetShape(NoBlock);
        SetResolution();
      }
    }

    /** `atomIsMovable`: whether every cell of `block` at (x, y) is a free board
        cell; when it is and `updatePosition` is set, `block` becomes the
        current piece at (x, y); nothing else changes. */
    method AtomIsMovable(block: Tetromino, x: int, y: int, updatePosition: bool) returns (ok: bool)
      requires Valid() && block.Valid()
      modifies this`curBlock, this`curX, this`curY
      ensures Valid()
      ensures ok == Fits(gameBoard[..], block.Value().offsets, x, y)
      ensures ok && updatePosition ==> curBlock == block && curX == x && curY == y
      ensures !(ok && updatePosition) ==> unchanged(this)
    {
      ghost var offs := block.Value().offsets;
      for i := 0 to 4
        invariant unchanged(this)
        invariant forall j :: 0 <= j < i ==>
          InBoard(x + offs[j].x, y - offs[j].y) && CellAt(gameBoard[..], x + offs[j].x, y - offs[j].y) == NoBlock
      {
        var dx := block.GetX(i);
        var dy := block.GetY(i);
        var newX, newY := x + dx, y - dy;
        if newX < 0 || newX >= Width || newY < 0 || newY >= Height {
          return false;
        }
        var s := CurTetrominoPos(newX, newY);
        if s != NoBlock {
          return false;
        }
      }
      if updatePosition {
        curBlock := block;
        curX := x;
        curY := y;
      }
      return true;
    }

    /** `isMovable`: `atomIsMovable` with the position updated on success; as a
        state change, the move of the game model. */
    method IsMovable(block: Tetromino, x: int, y: int) returns (ok: bool)
      requires Valid() && block.Valid()
      modifies this`curBlock, this`curX, this`curY
      ensures Valid()
      ensures ok == Fits(gameBoard[..], block.Value().offsets, x, y)
      ensures ok ==> curBlock == block && curX == x && curY == y
      ensures !ok ==> unchanged(this)
    {
      ok := AtomIsMovable(block, x, y, true);
    }

    /** The search of `renderShadow`: the lowest row the piece reaches going
        down one row at a time while above row 0 and fitting. */
    method FindShadowRow() returns (tempY: int)
      requires Valid()
      modifies this`curBlock, this`curX, this`curY
      ensures unchanged(this)
      ensures tempY == Engine.ShadowRow(gameBoard[..], curBlock.Value().offsets, curX, curY)
    {
      tempY := curY;
      while tempY > 0
        invariant unchanged(this)
        invariant Engine.ShadowRow(gameBoard[..], curBlock.Value().offsets, curX, tempY)
               == Engine.ShadowRow(gameBoard[..], curBlock.Value().offsets, curX, curY)
        decreases tempY
      {
        var ok := AtomIsMovable(curBlock, curX, tempY - 1, false);
        if !ok {
          break;
        }
        tempY := tempY - 1;
      }
    }

    /** `newTetromino`, with the random draw passed in as `pick`, and the draw
        of the restart `gameOver` may run as `restartPick`. */
    method NewTetromino(pick: int, restartPick: int) returns (o: Outcome)
      requires Valid() && IsDraw(pick) && IsDraw(restartPick)
      modifies this, gameBoard, curBlock, curBlock.coords
      ensures Valid() && gameBoard == old(gameBoard) && curBlock == old(curBlock)
      ensures curBlock.coords == old(curBlock.coords)
      ensures State() == Spawned(old(State()), pick, restartPick).0
      ensures o == Spawned(old(State()), pick, restartPick).1
      decreases if gameBoard[..] == EmptyGrid() then 0 else 1, 2
    {
      ghost var g := State();
      var score := currentScore;
      curBlock.SetRandomShape(pick);
      curX := Width / 2 + 1;
      var m := curBlock.MinY();
      curY := Height - 1 + m;
      ghost var h := Placed(g, pick);
      assert State() == h;
      var ok := IsMovable(curBlock, curX, curY);
      if !ok {
        curBlock.SetShape(NoBlock);
        timerRunning := false;
        isStarted := false;
        SpawnedBlocked(g, pick, restartPick);
        assert State() == h.(piece := TablePiece(NoBlock), timerRunning := false, started := false);
        assert gameBoard[..] == g.board != EmptyGrid();
        GameOver(restartPick);
        o := Outcome.GameOver(score);
        assert (State(), o) == Spawned(g, pick, restartPick);
      } else {
        SpawnedFree(g, pick, restartPick);
        o := Continue;
        assert State() == h;
      }
    }

    /** `gameOver` without its dialog and high-score file: the interval for the
        final score, then `start`. */
    method GameOver(pick: int)
      requires Valid() && IsDraw(pick) && gameBoard[..] != EmptyGrid()
      modifies this, gameBoard, curBlock, curBlock.coords
      ensures Valid() && gameBoard == old(gameBoard) && curBlock == old(curBlock)
      ensures curBlock.coords == old(curBlock.coords)
      ensures State() == Restarted(old(State()), pick)
      decreases 1, 1
    {
      SetResolution();
      Start(pick);
    }

    /** `start`: nothing while paused; otherwise a new game on a cleared board. */
    method Start(pick: int)
      requires Valid() && IsDraw(pick)
      modifies this, gameBoard, curBlock, curBlock.coords
      ensures Valid() && gameBoard == old(gameBoard) && curBlock == old(curBlock)
      ensures curBlock.coords == old(curBlock.coords)
      ensures State() == Started(old(State()), pick)
      decreases 1, 0
    {
      ghost var g := State();
      if isPaused {
        return;
      }
      isStarted := true;
      isFallingDone := false;
      currentScore := 0;
      InitBoard();
      ghost var h := g.(started := true, fallingDone := false, score := 0, board := EmptyGrid());
      assert State() == h;
      var o := NewTetromino(pick, pick);
      timerRunning := true;
      assert State() == Spawned(h, pick, pick).0.(timerRunning := true);
    }

    /** `pause`: nothing unless started; otherwise flip the paused flag and
        stop or restart the timer. */
    method Pause()
      requires Valid()
      modifies this`isPaused, this`timerRunning
      ensures State() == Paused(old(State()))
    {
      if !isStarted {
        return;
      }
      isPaused := !isPaused;
      if isPaused {
        timerRunning := false;
      } else {
        timerRunning := true;
      }
    }

    /** `fixTetromino`: write the piece's tag into its four cells (an index
        outside the array ends the handler with the exception), clear full
        rows, and spawn unless the fall was marked done. */
    method FixTetromino(pick: int, restartPick: int) returns (o: Outcome)
      requires Valid() && IsDraw(pick) && IsDraw(restartPick)
      modifies this, gameBoard, curBlock, curBlock.coords
      ensures Valid() && gameBoard == old(gameBoard) && curBlock == old(curBlock)
      ensures curBlock.coords == old(curBlock.coords)
      ensures (State(), o) == Fixed(old(State()), pick, restartPick)
    {
      ghost var g := State();
      ghost var idxs := PieceIndices(g.piece.offsets, curX, curY);
      var tag := curBlock.GetShape();
      for i := 0 to 4
        modifies gameBoard
        invariant Stamp(gameBoard[..], idxs[i..], tag) == Stamp(g.board, idxs, tag)
      {
        var dx := curBlock.GetX(i);
        var dy := curBlock.GetY(i);
        var x, y := curX + dx, curY - dy;
        var index := y * Width + x;
        assert index == idxs[i] && idxs[i..][1..] == idxs[i + 1..];
        if !(0 <= index < Cells) {
          return IndexOutOfBounds;
        }
        gameBoard[index] := tag;
      }
      RemoveFullLines();
      if !isFallingDone {
        o := NewTetromino(pick, restartPick);
      } else {
        o := Continue;
      }
    }

    /** `advanceOneLine`: down one row if the piece fits there, else fix it. */
    method AdvanceOneLine(pick: int, restartPick: int) returns (o: Outcome)
      requires Valid() && IsDraw(pick) && IsDraw(restartPick)
      modifies this, gameBoard, curBlock, curBlock.coords
      ensures Valid() && gameBoard == old(gameBoard) && curBlock == old(curBlock)
      ensures curBlock.coords == old(curBlock.coords)
      ensures (State(), o) == Descended(old(State()), pick, restartPick)
    {
      var ok := IsMovable(curBlock, curX, curY - 1);
      if !ok {
        o := FixTetromino(pick, restartPick);
      } else {
        o := Continue;
      }
    }

    /** The loop of `advanceToEnd` as written: each successful test of the row
        below moves the piece there and the loop then decrements the row once
        more; the row reached is `DropRowAsWritten`'s. */
    method FallAsWritten()
      requires Valid()
      modifies this`curBlock, this`curX, this`curY
      ensures Valid() && curBlock == old(curBlock) && curX == old(curX)
      ensures curY == DropRowAsWritten(old(gameBoard[..]), old(curBlock.Value().offsets), old(curX), old(curY))
    {
      ghost var b, offs, x := gameBoard[..], curBlock.Value().offsets, curX;
      ghost var target := DropRowAsWritten(b, offs, x, curY);
      DropRowStep(b, offs, x, curY);
      var moved := IsMovable(curBlock, curX, curY - 1);
      while moved
        invariant Valid() && curBlock == old(curBlock) && curX == x
        invariant moved ==> curY - offs[0].y >= 0
        invariant (if moved then DropRowAsWritten(b, offs, x, curY - 1) else curY) == target
        decreases curY - offs[0].y + (if moved then 1 else 0)
      {
        curY := curY - 1;
        ghost var y := curY;
        DropRowStep(b, offs, x, y);
        moved := IsMovable(curBlock, curX, curY - 1);
      }
    }

    /** `advanceToEnd` as written: the loop above, then fix the piece. */
    method AdvanceToEnd(pick: int, restartPick: int) returns (o: Outcome)
      requires Valid() && IsDraw(pick) && IsDraw(restartPick)
      modifies this, gameBoard, curBlock, curBlock.coords
      ensures Valid() && gameBoard == old(gameBoard) && curBlock == old(curBlock)
      ensures curBlock.coords == old(curBlock.coords)
      ensures (State(), o) == DroppedAsWritten(old(State()), pick, restartPick)
    {
      ghost var g := State();
      FallAsWritten();
      assert State() == g.(curY := DropRowAsWritten(g.board, g.piece.offsets, g.curX, g.curY));
      o := FixTetromino(pick, restartPick);
    }

    /** The fall of the intended hard drop: down one row at a time while the
        piece fits; the row reached is the landing row. */
    method Fall()
      requires Valid()
      modifies this`curBlock, this`curX, this`curY
      ensures Valid() && curBlock == old(curBlock) && curX == old(curX)
      ensures curY == LandingRow(old(gameBoard[..]), old(curBlock.Value().offsets), old(curX), old(curY))
    {
      ghost var b, offs, x := gameBoard[..], curBlock.Value().offsets, curX;
      ghost var target := LandingRow(b, offs, x, curY);
      LandingRowStep(b, offs, x, curY);
      var moved := IsMovable(curBlock, curX, curY - 1);
      while moved
        invariant Valid() && curBlock == old(curBlock) && curX == x
        invariant moved ==> curY - offs[0].y >= 0
        invariant (if moved then LandingRow(b, offs, x, curY) else curY) == target
        decreases curY - offs[0].y + (if moved then 1 else 0)
      {
        LandingRowStep(b, offs, x, curY);
        moved := IsMovable(curBlock, curX, curY - 1);
      }
    }

    /** The hard drop as intended: fall to the landing row, then fix the piece. */
    method HardDrop(pick: int, restartPick: int) returns (o: Outcome)
      requires Valid() && IsDraw(pick) && IsDraw(restartPick)
      modifies this, gameBoard, curBlock, curBlock.coords
      ensures Valid() && gameBoard == old(gameBoard) && curBlock == old(curBlock)
      ensures curBlock.coords == old(curBlock.coords)
      ensures (State(), o) == HardDropped(old(State()), pick, restartPick)
    {
      ghost var g := State();
      Fall();
      assert State() == g.(curY := LandingRow(g.board, g.piece.offsets, g.curX, g.curY));
      o := FixTetromino(pick, restartPick);
    }

    /** `actionPerformed`, the timer tick: spawn after a clear, else descend. */
    method ActionPerformed(pick: int, restartPick: int) returns (o: Outcome)
      requires Valid() && IsDraw(pick) && IsDraw(restartPick)
      modifies this, gameBoard, curBlock, curBlock.coords
      ensures Valid() && gameBoard == old(gameBoard) && curBlock == old(curBlock)
      ensures curBlock.coords == old(curBlock.coords)
      ensures (State(), o) == Ticked(old(State()), pick, restartPick)
    {
      if isFallingDone {
        isFallingDone := false;
        o := NewTetromino(pick, restartPick);
      } else {
        o := AdvanceOneLine(pick, restartPick);
      }
    }

    /** `keyPressed`: only with a started game and a piece; P pauses or
        resumes; other keys only while not paused. */
    method KeyPressed(c: Command, pick: int, restartPick: int) returns (o: Outcome)
      requires Valid() && IsDraw(pick) && IsDraw(restartPick)
      modifies this, gameBoard, curBlock, curBlock.coords
      ensures Valid() && gameBoard == old(gameBoard)
      ensures (State(), o) == Engine.KeyPressed(old(State()), c, pick, restartPick)
    {
      var s := curBlock.GetShape();
      if !isStarted || s == NoBlock {
        return Continue;
      }
      if c == TogglePause {
        Pause();
        return Continue;
      }
      if isPaused {
        return Continue;
      }
      o := HandleKeyPress(c, pick, restartPick);
    }

    /** `handleKeyPress`: the move, rotation and drop commands. Rotation tries
        the right-turned piece, a new object unless the piece is O; space runs
        `advanceToEnd` as written. */
    method HandleKeyPress(c: Command, pick: int, restartPick: int) returns (o: Outcome)
      requires Valid() && IsDraw(pick) && IsDraw(restartPick)
      modifies this, gameBoard, curBlock, curBlock.coords
      ensures Valid() && gameBoard == old(gameBoard)
      ensures (State(), o) == KeyHandled(old(State()), c, pick, restartPick)
    {
      o := Continue;
      match c
      case MoveLeft =>
        var ok := IsMovable(curBlock, curX - 1, curY);
      case MoveRight =>
        var ok := IsMovable(curBlock, curX + 1, curY);
      case Rotate =>
        var turned := curBlock.RotateRight();
        var ok := IsMovable(turned, curX, curY);
      case SoftDrop =>
        o := AdvanceOneLine(pick, restartPick);
      case HardDrop =>
        o := AdvanceToEnd(pick, restartPick);
      case TogglePause =>
      case OtherKey =>
    }
  }
}

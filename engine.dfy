/** The game state of GameBoardPanel as a value, and every event handler of
    the panel as a transition on it: moves, spawning, fixing a piece, line
    clearing, the timer tick, start, pause and the key commands. The panel
    class in module Panel is proved to perform exactly these transitions. */
module Engine {
  import opened Tetrominoes
  import opened Board

  /** How an event handler ends. `IndexOutOfBounds` stands for the exception
      fixTetromino raises when a piece cell maps outside the board array; the
      writes made before it stay, the rest of the handler does not run. */
  datatype Outcome = Continue | GameOver(finalScore: int) | IndexOutOfBounds

  /** The keys the panel reacts to; `OtherKey` is any key outside the switch. */
  datatype Command = MoveLeft | MoveRight | Rotate | SoftDrop | HardDrop | TogglePause | OtherKey

  /** The panel's fields: the board, the active piece and its anchor, the score,
      the timer interval, the three flags and whether the timer is running. */
  datatype Game = Game(
    board: Grid,
    piece: Piece,
    curX: int,
    curY: int,
    score: int,
    interval: int,
    fallingDone: bool,
    started: bool,
    paused: bool,
    timerRunning: bool)

  /** The spawn column, `BOARD_WIDTH / 2 + 1`. */
  const SpawnX := Width / 2 + 1

  /** A random draw of `nextInt(1, 8)`. */
  predicate IsDraw(pick: int)
  {
    1 <= pick < ShapeCount
  }

  /** The sizes the Java arrays fix: 220 cells, four offsets. */
  predicate WellFormed(g: Game)
  {
    |g.board| == Cells && |g.piece.offsets| == 4
  }

  /** The state invariant of a running panel: the active piece, unless it is
      NoBlock, sits where it fits; its anchor is a board cell covered by its
      (0, 0) offset; the NoBlock piece holds the NoBlock row; a finished fall
      has no piece; the score is not negative. */
  predicate Playable(g: Game)
  {
    && WellFormed(g)
    && Offset(0, 0) in g.piece.offsets
    && g.score >= 0
    && InBoard(g.curX, g.curY)
    && (g.piece.shape != NoBlock ==> Fits(g.board, g.piece.offsets, g.curX, g.curY))
    && (g.piece.shape == NoBlock ==> g.piece == TablePiece(NoBlock))
    && (g.fallingDone ==> g.piece.shape == NoBlock)
  }

  /** The constructor's state: empty board, NoBlock at (0, 0), timer running. */
  function Initial(timerResolution: int): Game
  {
    Game(EmptyGrid(), TablePiece(NoBlock), 0, 0, 0, timerResolution, false, false, false, true)
  }

  lemma InitialPlayable(timerResolution: int)
    ensures Playable(Initial(timerResolution))
  {
    TableRowsAreTetrominoes(NoBlock);
  }

  // ---------------------------------------------------------------- moving

  /** `isMovable(p, x, y)`: if p fits at (x, y) the piece and anchor become
      (p, x, y), otherwise nothing changes. */
  function Moved(g: Game, p: Piece, x: int, y: int): Game
    requires |g.board| == Cells
  {
    if Fits(g.board, p.offsets, x, y) then g.(piece := p, curX := x, curY := y) else g
  }

  /** A move keeps the invariant, for any candidate piece that covers its anchor
      with four offsets and keeps NoBlock's row. */
  lemma MovedPlayable(g: Game, p: Piece, x: int, y: int)
    requires Playable(g)
    requires |p.offsets| == 4 && Offset(0, 0) in p.offsets
    requires p.shape == NoBlock ==> p == TablePiece(NoBlock)
    requires p.shape == g.piece.shape
    ensures Playable(Moved(g, p, x, y))
  {
    if Fits(g.board, p.offsets, x, y) {
      var i :| 0 <= i < |p.offsets| && p.offsets[i] == Offset(0, 0);
      assert InBoard(x + p.offsets[i].x, y - p.offsets[i].y);
    }
  }

  // -------------------------------------------------------------- spawning

  /** The piece and anchor `newTetromino` tries: the drawn shape at column 6 and
      row Height - 1 + minY. */
  function Placed(g: Game, pick: int): Game
    requires IsDraw(pick)
  {
    var p := TablePiece(ShapeAt(pick));
    g.(piece := p, curX := SpawnX, curY := Height - 1 + LowestY(p.offsets))
  }

  /** The spawn row puts the piece's highest cell on the top row. */
  lemma PlacedHighestCellOnTopRow(g: Game, pick: int)
    requires IsDraw(pick)
    ensures var h := Placed(g, pick);
      && (forall i :: 0 <= i < 4 ==> h.curY - h.piece.offsets[i].y <= Height - 1)
      && (exists i :: 0 <= i < 4 && h.curY - h.piece.offsets[i].y == Height - 1)
  {
    LowestYIsLeast(Coords(ShapeAt(pick)));
  }

  /** On an empty board every shape fits at the spawn position, and the
      anchor is a board cell. */
  lemma SpawnFitsOnEmptyGrid(pick: int)
    requires IsDraw(pick)
    ensures var offs := Coords(ShapeAt(pick));
      && Fits(EmptyGrid(), offs, SpawnX, Height - 1 + LowestY(offs))
      && InBoard(SpawnX, Height - 1 + LowestY(offs))
  {
    var s := ShapeAt(pick);
    TableOffsetsSmall(s);
    SpawnFits(Coords(s));
  }

  /** A piece with table-sized offsets that covers its anchor fits on the empty
      board at the spawn position. */
  lemma SpawnFits(offs: seq<Offset>)
    requires |offs| == 4 && Offset(0, 0) in offs
    requires forall i :: 0 <= i < 4 ==> -1 <= offs[i].x <= 1 && -1 <= offs[i].y <= 2
    ensures Fits(EmptyGrid(), offs, SpawnX, Height - 1 + LowestY(offs))
    ensures InBoard(SpawnX, Height - 1 + LowestY(offs))
  {
    var low := LowestY(offs);
    LowestYIsLeast(offs);
    var j :| 0 <= j < 4 && offs[j].y == low;
    var z :| 0 <= z < 4 && offs[z] == Offset(0, 0);
    assert -1 <= low <= 0;
    forall i | 0 <= i < 4
      ensures InBoard(SpawnX + offs[i].x, Height - 1 + low - offs[i].y)
      ensures CellAt(EmptyGrid(), SpawnX + offs[i].x, Height - 1 + low - offs[i].y) == NoBlock
    {
      IndexOfCell(SpawnX + offs[i].x, Height - 1 + low - offs[i].y);
    }
  }

  /** Every table offset lies within one column of the anchor and between one
      row above and two rows below it. */
  lemma TableOffsetsSmall(s: Shape)
    ensures forall i :: 0 <= i < 4 ==> -1 <= Coords(s)[i].x <= 1 && -1 <= Coords(s)[i].y <= 2
    ensures Offset(0, 0) in Coords(s)
  {
    match s
    case NoBlock =>
    case ZShape =>
    case SShape =>
    case IShape =>
    case TShape =>
    case OShape =>
    case LShape =>
    case JShape =>
  }

  /** `newTetromino` with the draw `pick`. If the placement is blocked the piece
      becomes NoBlock, the timer stops, the game is no longer started, and
      `gameOver` runs: with its dialog and score file left out, that is
      `setResolution` for the final score followed by `start`, whose own spawn
      uses `restartPick`. That spawn is on a cleared board, where it cannot be
      blocked; this is what ends the recursion. */
  function Spawned(g: Game, pick: int, restartPick: int): (r: (Game, Outcome))
    requires |g.board| == Cells && IsDraw(pick) && IsDraw(restartPick)
    decreases if g.board == EmptyGrid() then 0 else 1, 2
  {
    var h := Placed(g, pick);
    if Fits(h.board, h.piece.offsets, h.curX, h.curY) then (h, Continue)
    else
      SpawnFitsOnEmptyGrid(pick);
      var over := h.(piece := TablePiece(NoBlock), timerRunning := false, started := false);
      (Restarted(over, restartPick), GameOver(g.score))
  }

  /** `gameOver` as a state change: `setResolution` with the final score, then `start`. */
  function Restarted(g: Game, pick: int): Game
    requires |g.board| == Cells && IsDraw(pick) && g.board != EmptyGrid()
    decreases 1, 1
  {
    Started(g.(interval := Resolution(g.score)), pick)
  }

  /** `start`: a no-op while paused; otherwise the game is started, the fall
      flag cleared, the score reset, the board emptied, a piece spawned with
      `pick`, and the timer started. The interval is not touched. */
  function Started(g: Game, pick: int): Game
    requires |g.board| == Cells && IsDraw(pick)
    decreases 1, 0
  {
    if g.paused then g
    else
      var h := g.(started := true, fallingDone := false, score := 0, board := EmptyGrid());
      Spawned(h, pick, pick).0.(timerRunning := true)
  }

  /** What `start` does when not paused, spelled out: the spawn on the cleared
      board always succeeds, the score is 0 and the interval is the old one. */
  lemma StartedResets(g: Game, pick: int)
    requires |g.board| == Cells && IsDraw(pick)
    ensures g.paused ==> Started(g, pick) == g
    ensures !g.paused ==> (Started(g, pick) ==
      Placed(g, pick).(started := true, fallingDone := false, score := 0, board := EmptyGrid(), timerRunning := true))
  {
    SpawnFitsOnEmptyGrid(pick);
  }

  /** Start from any state with a 220-cell board gives a playable state; while
      paused it changes nothing, so the state must already be playable. */
  lemma StartedPlayable(g: Game, pick: int)
    requires |g.board| == Cells && IsDraw(pick) && (g.paused ==> Playable(g))
    ensures Playable(Started(g, pick))
  {
    StartedResets(g, pick);
    if !g.paused {
      SpawnFitsOnEmptyGrid(pick);
      TableRowsAreTetrominoes(ShapeAt(pick));
    }
  }

  /** A blocked spawn ends the game with the score it had, and the interval
      is then the one of that score. If the panel is paused `start` does
      nothing and the game stays over; otherwise a new game is running with
      score 0 and the old interval. A free spawn changes only the piece and
      its anchor. */
  lemma SpawnedOutcome(g: Game, pick: int, restartPick: int)
    requires |g.board| == Cells && IsDraw(pick) && IsDraw(restartPick)
    ensures var h := Placed(g, pick);
      var (r, o) := Spawned(g, pick, restartPick);
      && (Fits(g.board, h.piece.offsets, h.curX, h.curY) ==> r == h && o == Continue)
      && (!Fits(g.board, h.piece.offsets, h.curX, h.curY) ==>
            && o == GameOver(g.score)
            && r.interval == Resolution(g.score)
            && (g.paused ==> r.score == g.score && !r.started && !r.timerRunning
                             && r.piece == TablePiece(NoBlock) && r.board == g.board)
            && (!g.paused ==> r.score == 0 && r.started && r.timerRunning
                              && r.board == EmptyGrid() && r.piece == TablePiece(ShapeAt(restartPick))))
  {
    var h := Placed(g, pick);
    if !Fits(g.board, h.piece.offsets, h.curX, h.curY) {
      SpawnFitsOnEmptyGrid(pick);
      var over := h.(piece := TablePiece(NoBlock), timerRunning := false, started := false);
      StartedResets(over.(interval := Resolution(g.score)), restartPick);
    }
  }

  /** A free spawn changes only the piece and its anchor. */
  lemma SpawnedFree(g: Game, pick: int, restartPick: int)
    requires |g.board| == Cells && IsDraw(pick) && IsDraw(restartPick)
    requires Fits(g.board, Placed(g, pick).piece.offsets, SpawnX, Placed(g, pick).curY)
    ensures Spawned(g, pick, restartPick) == (Placed(g, pick), Continue)
  {
  }

  /** A blocked spawn is the game over: the piece cleared, the timer stopped,
      the game no longer started, then `gameOver`. */
  lemma SpawnedBlocked(g: Game, pick: int, restartPick: int)
    requires |g.board| == Cells && IsDraw(pick) && IsDraw(restartPick)
    requires !Fits(g.board, Placed(g, pick).piece.offsets, SpawnX, Placed(g, pick).curY)
    ensures g.board != EmptyGrid()
    ensures Spawned(g, pick, restartPick) ==
      (Restarted(Placed(g, pick).(piece := TablePiece(NoBlock), timerRunning := false, started := false), restartPick),
       GameOver(g.score))
  {
    SpawnFitsOnEmptyGrid(pick);
  }

  /** A spawn from a state without a finished fall leaves a playable state. */
  lemma SpawnedPlayable(g: Game, pick: int, restartPick: int)
    requires |g.board| == Cells && IsDraw(pick) && IsDraw(restartPick)
    requires g.score >= 0 && !g.fallingDone
    ensures Playable(Spawned(g, pick, restartPick).0)
  {
    var h := Placed(g, pick);
    SpawnFitsOnEmptyGrid(pick);
    TableRowsAreTetrominoes(ShapeAt(pick));
    TableRowsAreTetrominoes(NoBlock);
    if !Fits(h.board, h.piece.offsets, h.curX, h.curY) {
      var over := h.(piece := TablePiece(NoBlock), timerRunning := false, started := false);
      assert Playable(over);
      StartedPlayable(over.(interval := Resolution(g.score)), restartPick);
    }
  }

  // ---------------------------------------------------------- line clearing

  /** `removeFullLines`: the scan; if it met full rows, their number is added to
      the score, the fall is marked done, the piece becomes NoBlock and the
      interval is set for the new score. */
  function LinesRemoved(g: Game): Game
    requires |g.board| == Cells
  {
    var (b, n) := Cleared(g.board);
    if n > 0 then
      g.(board := b, score := g.score + n, fallingDone := true,
         piece := TablePiece(NoBlock), interval := Resolution(g.score + n))
    else g.(board := b)
  }

  /** The effects of `removeFullLines`: the count is the number of rows full
      before the call and is what the score grows by; with none, nothing
      changes; otherwise the fall is done and the piece is NoBlock; and if the
      top row was not full, no row is full afterwards. */
  lemma LinesRemovedEffects(g: Game)
    requires |g.board| == Cells
    ensures var n := FullRowsBelow(g.board, Height);
      var r := LinesRemoved(g);
      && r.score == g.score + n
      && (n == 0 ==> r == g)
      && (n > 0 ==> r.fallingDone && r.piece == TablePiece(NoBlock) && r.interval == Resolution(r.score))
      && (!RowFull(g.board, Height - 1) ==> forall k :: 0 <= k < Height ==> !RowFull(r.board, k))
      && r.curX == g.curX && r.curY == g.curY && r.started == g.started && r.paused == g.paused
      && r.timerRunning == g.timerRunning
  {
    ClearedCountsFullRows(g.board);
    var n := FullRowsBelow(g.board, Height);
    if n == 0 {
      NoFullRowCounted(g.board, Height);
      ClearFromNoFullRow(g.board, Height - 1, 0);
    }
    if !RowFull(g.board, Height - 1) {
      ClearedLeavesNoFullRow(g.board);
    }
  }

  /** A zero count means no row below k is full. */
  lemma {:induction false} NoFullRowCounted(b: Grid, k: int)
    requires |b| == Cells && 0 <= k <= Height && FullRowsBelow(b, k) == 0
    ensures forall r :: 0 <= r < k ==> !RowFull(b, r)
  {
    if k > 0 {
      NoFullRowCounted(b, k - 1);
    }
  }

  // ----------------------------------------------------------------- fixing

  /** The flat indices `fixTetromino` writes, in order: (y - dy) * Width + x + dx. */
  function PieceIndices(offs: seq<Offset>, x: int, y: int): (r: seq<int>)
    ensures |r| == |offs|
  {
    seq(|offs|, i requires 0 <= i < |offs| => (y - offs[i].y) * Width + (x + offs[i].x))
  }

  /** Writing `tag` at each index in turn; an index outside the array stops the
      writes there (the exception) and the second component is then false. */
  function Stamp(b: Grid, idxs: seq<int>, tag: Shape): (r: (Grid, bool))
    ensures |r.0| == |b|
    decreases |idxs|
  {
    if idxs == [] then (b, true)
    else if !(0 <= idxs[0] < |b|) then (b, false)
    else Stamp(b[idxs[0] := tag], idxs[1..], tag)
  }

  /** With every index inside the array, stamping succeeds and sets exactly the
      indexed cells to the tag. */
  lemma {:induction false} StampInRange(b: Grid, idxs: seq<int>, tag: Shape)
    requires forall i :: 0 <= i < |idxs| ==> 0 <= idxs[i] < |b|
    ensures Stamp(b, idxs, tag).1
    ensures forall k :: 0 <= k < |b| ==> Stamp(b, idxs, tag).0[k] == if k in idxs then tag else b[k]
    decreases |idxs|
  {
    if idxs != [] {
      StampInRange(b[idxs[0] := tag], idxs[1..], tag);
      forall k | 0 <= k < |b|
        ensures Stamp(b, idxs, tag).0[k] == if k in idxs then tag else b[k]
      {
        assert k in idxs <==> k == idxs[0] || k in idxs[1..];
      }
    }
  }

  /** Stamping succeeds exactly when every index is inside the array. */
  lemma {:induction false} StampSucceedsIff(b: Grid, idxs: seq<int>, tag: Shape)
    ensures Stamp(b, idxs, tag).1 <==> forall i :: 0 <= i < |idxs| ==> 0 <= idxs[i] < |b|
    decreases |idxs|
  {
    if idxs != [] && 0 <= idxs[0] < |b| {
      StampSucceedsIff(b[idxs[0] := tag], idxs[1..], tag);
      assert forall i :: 1 <= i < |idxs| ==> idxs[i] == idxs[1..][i - 1];
    }
  }

  /** A piece that fits maps to in-range indices of cells that are empty, and
      the indices are exactly the flat positions of its cells. */
  lemma FittingPieceIndices(b: Grid, offs: seq<Offset>, x: int, y: int)
    requires |b| == Cells && Fits(b, offs, x, y)
    ensures forall i :: 0 <= i < |offs| ==>
      && 0 <= PieceIndices(offs, x, y)[i] < Cells
      && b[PieceIndices(offs, x, y)[i]] == NoBlock
  {
    forall i | 0 <= i < |offs|
      ensures 0 <= PieceIndices(offs, x, y)[i] < Cells && b[PieceIndices(offs, x, y)[i]] == NoBlock
    {
      IndexOfCell(x + offs[i].x, y - offs[i].y);
    }
  }

  /** `fixTetromino`: write the piece's tag at its four cells, then
      `removeFullLines`, then spawn unless the fall was marked done. */
  function Fixed(g: Game, pick: int, restartPick: int): (r: (Game, Outcome))
    requires |g.board| == Cells && IsDraw(pick) && IsDraw(restartPick)
  {
    var (b, ok) := Stamp(g.board, PieceIndices(g.piece.offsets, g.curX, g.curY), g.piece.shape);
    if !ok then (g.(board := b), IndexOutOfBounds)
    else
      var h := LinesRemoved(g.(board := b));
      if !h.fallingDone then Spawned(h, pick, restartPick) else (h, Continue)
  }

  /** Fixing a piece in a playable state: the four piece cells, all empty
      before, get the piece's tag and no other cell changes before the line
      clearing; no exception is raised; a new piece is spawned at once exactly
      when no row was cleared, and otherwise the piece is NoBlock and the fall
      marked done, so that the next tick spawns. */
  lemma FixedEffects(g: Game, pick: int, restartPick: int)
    requires Playable(g) && !g.fallingDone && IsDraw(pick) && IsDraw(restartPick)
    ensures var idxs := PieceIndices(g.piece.offsets, g.curX, g.curY);
      var (b, ok) := Stamp(g.board, idxs, g.piece.shape);
      var n := FullRowsBelow(b, Height);
      var (r, o) := Fixed(g, pick, restartPick);
      && ok
      && (forall k :: 0 <= k < Cells ==> b[k] == if k in idxs then g.piece.shape else g.board[k])
      && (g.piece.shape != NoBlock ==> forall k :: k in idxs ==> g.board[k] == NoBlock)
      && o != IndexOutOfBounds
      && (n == 0 ==> (r, o) == Spawned(g.(board := b), pick, restartPick))
      && (n > 0 ==> o == Continue && r.fallingDone && r.piece == TablePiece(NoBlock)
                    && r.score == g.score + n && r.board == Cleared(b).0)
  {
    var idxs := PieceIndices(g.piece.offsets, g.curX, g.curY);
    PieceIndicesInRange(g);
    StampInRange(g.board, idxs, g.piece.shape);
    var (b, ok) := Stamp(g.board, idxs, g.piece.shape);
    LinesRemovedEffects(g.(board := b));
    if g.piece.shape != NoBlock {
      FittingPieceIndices(g.board, g.piece.offsets, g.curX, g.curY);
    }
  }

  /** In a playable state the piece's indices are inside the array: a fitting
      piece's cells are on the board, and NoBlock's four offsets are its anchor. */
  lemma PieceIndicesInRange(g: Game)
    requires Playable(g)
    ensures forall i :: 0 <= i < 4 ==> 0 <= PieceIndices(g.piece.offsets, g.curX, g.curY)[i] < Cells
  {
    if g.piece.shape != NoBlock {
      FittingPieceIndices(g.board, g.piece.offsets, g.curX, g.curY);
    } else {
      IndexOfCell(g.curX, g.curY);
      assert forall i :: 0 <= i < 4 ==> g.piece.offsets[i] == Offset(0, 0);
    }
  }

  lemma FixedPlayable(g: Game, pick: int, restartPick: int)
    requires Playable(g) && !g.fallingDone && IsDraw(pick) && IsDraw(restartPick)
    ensures Playable(Fixed(g, pick, restartPick).0)
  {
    FixedEffects(g, pick, restartPick);
    var idxs := PieceIndices(g.piece.offsets, g.curX, g.curY);
    var (b, ok) := Stamp(g.board, idxs, g.piece.shape);
    var h := LinesRemoved(g.(board := b));
    LinesRemovedEffects(g.(board := b));
    if !h.fallingDone {
      SpawnedPlayable(h, pick, restartPick);
    } else {
      TableRowsAreTetrominoes(NoBlock);
    }
  }

  // ------------------------------------------------------------ descending

  /** `advanceOneLine`: move down a row if the piece fits there, else fix it. */
  function Descended(g: Game, pick: int, restartPick: int): (Game, Outcome)
    requires |g.board| == Cells && IsDraw(pick) && IsDraw(restartPick)
  {
    if Fits(g.board, g.piece.offsets, g.curX, g.curY - 1) then (g.(curY := g.curY - 1), Continue)
    else Fixed(g, pick, restartPick)
  }

  /** `advanceOneLine` fixes the piece only where it fits: the cells it writes
      are on the board and were empty, and it raises no exception. */
  lemma DescendedFixesFreeCells(g: Game, pick: int, restartPick: int)
    requires Playable(g) && !g.fallingDone && g.piece.shape != NoBlock
    requires IsDraw(pick) && IsDraw(restartPick)
    ensures Descended(g, pick, restartPick).1 != IndexOutOfBounds
    ensures !Fits(g.board, g.piece.offsets, g.curX, g.curY - 1) ==>
      forall i :: 0 <= i < 4 ==>
        && InBoard(g.curX + g.piece.offsets[i].x, g.curY - g.piece.offsets[i].y)
        && g.board[PieceIndices(g.piece.offsets, g.curX, g.curY)[i]] == NoBlock
  {
    FittingPieceIndices(g.board, g.piece.offsets, g.curX, g.curY);
    FixedEffects(g, pick, restartPick);
  }

  lemma DescendedPlayable(g: Game, pick: int, restartPick: int)
    requires Playable(g) && !g.fallingDone && IsDraw(pick) && IsDraw(restartPick)
    ensures Playable(Descended(g, pick, restartPick).0)
  {
    if Fits(g.board, g.piece.offsets, g.curX, g.curY - 1) {
      MovedPlayable(g, g.piece, g.curX, g.curY - 1);
      assert Moved(g, g.piece, g.curX, g.curY - 1) == g.(curY := g.curY - 1);
    } else {
      FixedPlayable(g, pick, restartPick);
    }
  }

  // ------------------------------------------------------------- hard drop

  /** The row the loop of `advanceToEnd` stops at, as written: each successful
      test of the row below moves the piece there, and the loop's own
      decrement moves it one row further, untested. */
  function DropRowAsWritten(b: Grid, offs: seq<Offset>, x: int, y: int): int
    requires |b| == Cells && |offs| > 0
    decreases y - offs[0].y
  {
    if Fits(b, offs, x, y - 1) then DropRowAsWritten(b, offs, x, y - 2) else y
  }

  /** `advanceToEnd` as written: drop by two rows per successful test, then fix. */
  function DroppedAsWritten(g: Game, pick: int, restartPick: int): (Game, Outcome)
    requires WellFormed(g) && IsDraw(pick) && IsDraw(restartPick)
  {
    Fixed(g.(curY := DropRowAsWritten(g.board, g.piece.offsets, g.curX, g.curY)), pick, restartPick)
  }

  /** The lowest row reached by moving down one row at a time while the piece fits. */
  function LandingRow(b: Grid, offs: seq<Offset>, x: int, y: int): int
    requires |b| == Cells && |offs| > 0
    decreases y - offs[0].y
  {
    if Fits(b, offs, x, y - 1) then LandingRow(b, offs, x, y - 1) else y
  }

  /** The row the shadow is drawn on (renderShadow's search): down from y while
      above row 0 and the piece fits one row lower. */
  function ShadowRow(b: Grid, offs: seq<Offset>, x: int, y: int): int
    requires |b| == Cells
    decreases y
  {
    if y > 0 && Fits(b, offs, x, y - 1) then ShadowRow(b, offs, x, y - 1) else y
  }

  /** One step of each drop search, for the loops that run them. */
  lemma DropRowStep(b: Grid, offs: seq<Offset>, x: int, y: int)
    requires |b| == Cells && |offs| > 0
    ensures DropRowAsWritten(b, offs, x, y) == if Fits(b, offs, x, y - 1) then DropRowAsWritten(b, offs, x, y - 2) else y
  {
  }

  lemma LandingRowStep(b: Grid, offs: seq<Offset>, x: int, y: int)
    requires |b| == Cells && |offs| > 0
    ensures LandingRow(b, offs, x, y) == if Fits(b, offs, x, y - 1) then LandingRow(b, offs, x, y - 1) else y
  {
  }

  /** Hard drop as intended: move down one row at a time while the piece fits,
      then fix. */
  function HardDropped(g: Game, pick: int, restartPick: int): (Game, Outcome)
    requires WellFormed(g) && IsDraw(pick) && IsDraw(restartPick)
  {
    Fixed(g.(curY := LandingRow(g.board, g.piece.offsets, g.curX, g.curY)), pick, restartPick)
  }

  /** From a fitting position, the landing row fits, the row below it does not,
      and it is the shadow's row when the piece covers its anchor. */
  lemma {:induction false} LandingRowFits(b: Grid, offs: seq<Offset>, x: int, y: int)
    requires |b| == Cells && |offs| > 0 && Offset(0, 0) in offs
    requires Fits(b, offs, x, y)
    ensures var l := LandingRow(b, offs, x, y);
      && l <= y && Fits(b, offs, x, l) && !Fits(b, offs, x, l - 1)
      && l == ShadowRow(b, offs, x, y)
    decreases y - offs[0].y
  {
    if Fits(b, offs, x, y - 1) {
      var i :| 0 <= i < |offs| && offs[i] == Offset(0, 0);
      assert InBoard(x + offs[i].x, y - 1 - offs[i].y);
      LandingRowFits(b, offs, x, y - 1);
    }
  }

  /** The corrected hard drop fixes the piece where it fits: on board cells
      that were empty, with no exception, at the shadow's row. */
  lemma HardDropLandsOnShadow(g: Game, pick: int, restartPick: int)
    requires Playable(g) && !g.fallingDone && g.piece.shape != NoBlock
    requires IsDraw(pick) && IsDraw(restartPick)
    ensures var l := LandingRow(g.board, g.piece.offsets, g.curX, g.curY);
      && l == ShadowRow(g.board, g.piece.offsets, g.curX, g.curY)
      && Fits(g.board, g.piece.offsets, g.curX, l)
      && !Fits(g.board, g.piece.offsets, g.curX, l - 1)
      && HardDropped(g, pick, restartPick).1 != IndexOutOfBounds
  {
    LandingRowFits(g.board, g.piece.offsets, g.curX, g.curY);
    var l := LandingRow(g.board, g.piece.offsets, g.curX, g.curY);
    var i :| 0 <= i < 4 && g.piece.offsets[i] == Offset(0, 0);
    assert InBoard(g.curX + g.piece.offsets[i].x, l - g.piece.offsets[i].y);
    FixedEffects(g.(curY := l), pick, restartPick);
  }

  lemma HardDroppedPlayable(g: Game, pick: int, restartPick: int)
    requires Playable(g) && !g.fallingDone && g.piece.shape != NoBlock
    requires IsDraw(pick) && IsDraw(restartPick)
    ensures Playable(HardDropped(g, pick, restartPick).0)
  {
    LandingRowFits(g.board, g.piece.offsets, g.curX, g.curY);
    var l := LandingRow(g.board, g.piece.offsets, g.curX, g.curY);
    var i :| 0 <= i < 4 && g.piece.offsets[i] == Offset(0, 0);
    assert InBoard(g.curX + g.piece.offsets[i].x, l - g.piece.offsets[i].y);
    FixedPlayable(g.(curY := l), pick, restartPick);
  }

  /** Every cell of a piece is free on the empty board wherever the piece is
      on the board. */
  lemma FitsOnEmptyGrid(offs: seq<Offset>, x: int, y: int)
    requires forall i :: 0 <= i < |offs| ==> InBoard(x + offs[i].x, y - offs[i].y)
    ensures Fits(EmptyGrid(), offs, x, y)
  {
    forall i | 0 <= i < |offs|
      ensures CellAt(EmptyGrid(), x + offs[i].x, y - offs[i].y) == NoBlock
    {
      IndexOfCell(x + offs[i].x, y - offs[i].y);
    }
  }

  /** On the empty board the as-written drop of a Z piece from an even row
      at the spawn column ends on row 0, where its lowest cell is below the board. */
  lemma {:induction false} ZDropAsWrittenReachesRowZero(y: int)
    requires 0 <= y <= 20 && y % 2 == 0
    ensures DropRowAsWritten(EmptyGrid(), Coords(ZShape), SpawnX, y) == 0
    decreases y
  {
    var offs := Coords(ZShape);
    if y > 0 {
      FitsOnEmptyGrid(offs, SpawnX, y - 1);
      ZDropAsWrittenReachesRowZero(y - 2);
    } else {
      assert !InBoard(SpawnX + offs[3].x, y - 1 - offs[3].y);
    }
  }

  /** Finding, as written: the first piece of a new game, a Z, dropped at once
      with `advanceToEnd`, skips past row 1 to row 0 and its fourth cell maps
      to index -5: the exception, although the state was playable. */
  lemma HardDropAsWrittenCrashes(pick: int, restartPick: int)
    requires IsDraw(pick) && IsDraw(restartPick)
    ensures var g := Started(Initial(400), 1);
      && Playable(g) && g.piece.shape == ZShape && g.curY == 20
      && DroppedAsWritten(g, pick, restartPick).1 == IndexOutOfBounds
  {
    var g := Started(Initial(400), 1);
    InitialPlayable(400);
    StartedPlayable(Initial(400), 1);
    StartedResets(Initial(400), 1);
    assert g.board == EmptyGrid() && g.piece == TablePiece(ZShape) && g.curX == SpawnX && g.curY == 20;
    ZDropAsWrittenCrashes(g, pick, restartPick);
  }

  /** The as-written drop of a Z piece at the spawn column and row 20 of the
      empty board raises the exception. */
  lemma ZDropAsWrittenCrashes(g: Game, pick: int, restartPick: int)
    requires IsDraw(pick) && IsDraw(restartPick)
    requires g.board == EmptyGrid() && g.piece == TablePiece(ZShape) && g.curX == SpawnX && g.curY == 20
    ensures DroppedAsWritten(g, pick, restartPick).1 == IndexOutOfBounds
  {
    ZDropAsWrittenReachesRowZero(20);
    ZStampCrashes();
    FixedFailedStamp(g.(curY := 0), pick, restartPick);
  }

  lemma FixedFailedStamp(g: Game, pick: int, restartPick: int)
    requires |g.board| == Cells && IsDraw(pick) && IsDraw(restartPick)
    requires !Stamp(g.board, PieceIndices(g.piece.offsets, g.curX, g.curY), g.piece.shape).1
    ensures Fixed(g, pick, restartPick).1 == IndexOutOfBounds
  {
  }

  lemma ZStampCrashes()
    ensures !Stamp(EmptyGrid(), PieceIndices(Coords(ZShape), SpawnX, 0), ZShape).1
  {
    var idxs := PieceIndices(Coords(ZShape), SpawnX, 0);
    assert idxs[3] == -5;
    StampSucceedsIff(EmptyGrid(), idxs, ZShape);
  }

  /** A board with one block, at column 6 of row 18. */
  function OneBlockBoard(): (b: Grid)
    ensures |b| == Cells
  {
    EmptyGrid()[18 * Width + 6 := IShape]
  }

  /** Finding, as written: a T piece spawned above the block at column 6 of
      row 18 tests row 20, jumps to row 19, finds row 18 blocked and is fixed
      at row 19, where its lowest cell is the occupied cell (6, 18). */
  lemma HardDropAsWrittenOverwrites()
    ensures var offs := Coords(TShape);
      var b := OneBlockBoard();
      var l := DropRowAsWritten(b, offs, SpawnX, Height - 1);
      && Fits(b, offs, SpawnX, Height - 1)
      && l == 19
      && !Fits(b, offs, SpawnX, l)
      && b[18 * Width + 6] != NoBlock
      && 18 * Width + 6 in PieceIndices(offs, SpawnX, l)
  {
    var offs := Coords(TShape);
    var b := OneBlockBoard();
    forall y | 20 <= y <= 21
      ensures Fits(b, offs, SpawnX, y)
    {
      forall i | 0 <= i < 4
        ensures CellAt(b, SpawnX + offs[i].x, y - offs[i].y) == NoBlock
      {
        IndexOfCell(SpawnX + offs[i].x, y - offs[i].y);
      }
    }
    assert CellAt(b, SpawnX + offs[1].x, 18 - offs[1].y) != NoBlock;
    assert CellAt(b, SpawnX + offs[3].x, 19 - offs[3].y) != NoBlock;
    assert PieceIndices(offs, SpawnX, 19)[3] == 18 * Width + 6;
  }

  /** Corrected, on the same board: the T piece lands on row 20, on free cells. */
  lemma HardDropCorrectedOnOneBlockBoard()
    ensures var offs := Coords(TShape);
      var b := OneBlockBoard();
      var l := LandingRow(b, offs, SpawnX, Height - 1);
      l == 20 && Fits(b, offs, SpawnX, l) && l == ShadowRow(b, offs, SpawnX, Height - 1)
  {
    var offs := Coords(TShape);
    var b := OneBlockBoard();
    TableRowsAreTetrominoes(TShape);
    forall y | 20 <= y <= 21
      ensures Fits(b, offs, SpawnX, y)
    {
      forall i | 0 <= i < 4
        ensures CellAt(b, SpawnX + offs[i].x, y - offs[i].y) == NoBlock
      {
        IndexOfCell(SpawnX + offs[i].x, y - offs[i].y);
      }
    }
    assert CellAt(b, SpawnX + offs[3].x, 19 - offs[3].y) != NoBlock;
    LandingRowFits(b, offs, SpawnX, Height - 1);
  }

  // ------------------------------------------------------------ tick, keys

  /** `actionPerformed`, the timer tick: after a clear, spawn; otherwise descend. */
  function Ticked(g: Game, pick: int, restartPick: int): (Game, Outcome)
    requires WellFormed(g) && IsDraw(pick) && IsDraw(restartPick)
  {
    if g.fallingDone then Spawned(g.(fallingDone := false), pick, restartPick)
    else Descended(g, pick, restartPick)
  }

  /** `pause`: a no-op unless started; otherwise the paused flag flips and the
      timer stops on pausing and restarts on resuming. */
  function Paused(g: Game): Game
  {
    if !g.started then g else g.(paused := !g.paused, timerRunning := g.paused)
  }

  /** Pausing twice gives back the state, with the timer running exactly when
      the game is not paused. */
  lemma PauseTwiceResumes(g: Game)
    ensures Paused(Paused(g)) == if g.started then g.(timerRunning := !g.paused) else g
  {
  }

  /** `handleKeyPress`: left and right shift the anchor, rotate tries the
      right-turned piece at the same anchor, down descends one row, space runs
      `advanceToEnd` as written (two rows per successful test, see
      `DroppedAsWritten`); other keys do nothing. */
  function KeyHandled(g: Game, c: Command, pick: int, restartPick: int): (Game, Outcome)
    requires WellFormed(g) && IsDraw(pick) && IsDraw(restartPick)
  {
    match c
    case MoveLeft => (Moved(g, g.piece, g.curX - 1, g.curY), Continue)
    case MoveRight => (Moved(g, g.piece, g.curX + 1, g.curY), Continue)
    case Rotate => (Moved(g, RotatedRight(g.piece), g.curX, g.curY), Continue)
    case SoftDrop => Descended(g, pick, restartPick)
    case HardDrop => DroppedAsWritten(g, pick, restartPick)
    case TogglePause => (g, Continue)
    case OtherKey => (g, Continue)
  }

  /** `keyPressed`: nothing unless started with an active piece; P pauses or
      resumes; while paused nothing else acts. */
  function KeyPressed(g: Game, c: Command, pick: int, restartPick: int): (Game, Outcome)
    requires WellFormed(g) && IsDraw(pick) && IsDraw(restartPick)
  {
    if !g.started || g.piece.shape == NoBlock then (g, Continue)
    else if c == TogglePause then (Paused(g), Continue)
    else if g.paused then (g, Continue)
    else KeyHandled(g, c, pick, restartPick)
  }

  /** Whether a key other than P reaches `handleKeyPress`. */
  predicate KeyActive(g: Game)
  {
    g.started && g.piece.shape != NoBlock && !g.paused
  }

  /** The key handling with the hard drop corrected: space moves the piece
      down one row at a time and fixes it on the shadow's row; every other
      key acts as in `KeyPressed`. */
  function CorrectedKeyPressed(g: Game, c: Command, pick: int, restartPick: int): (Game, Outcome)
    requires WellFormed(g) && IsDraw(pick) && IsDraw(restartPick)
  {
    if c == HardDrop && KeyActive(g) then HardDropped(g, pick, restartPick)
    else KeyPressed(g, c, pick, restartPick)
  }

  /** Keys are ignored unless the game is started and has a piece, and only P
      acts while paused. */
  lemma KeysIgnoredWhenInactive(g: Game, c: Command, pick: int, restartPick: int)
    requires WellFormed(g) && IsDraw(pick) && IsDraw(restartPick)
    ensures !g.started || g.piece.shape == NoBlock ==> KeyPressed(g, c, pick, restartPick) == (g, Continue)
    ensures g.paused && c != TogglePause ==> KeyPressed(g, c, pick, restartPick) == (g, Continue)
  {
  }

  /** Every tick keeps the invariant and never raises the exception. */
  lemma TickedPlayable(g: Game, pick: int, restartPick: int)
    requires Playable(g) && IsDraw(pick) && IsDraw(restartPick)
    ensures Playable(Ticked(g, pick, restartPick).0)
    ensures Ticked(g, pick, restartPick).1 != IndexOutOfBounds
  {
    if g.fallingDone {
      SpawnedPlayable(g.(fallingDone := false), pick, restartPick);
    } else {
      DescendedPlayable(g, pick, restartPick);
      if Fits(g.board, g.piece.offsets, g.curX, g.curY - 1) {
      } else {
        FixedEffects(g, pick, restartPick);
      }
    }
  }

  /** Every key that raises no exception keeps the invariant, and only space,
      running `advanceToEnd` as written, can raise it. */
  lemma KeyPressedPlayable(g: Game, c: Command, pick: int, restartPick: int)
    requires Playable(g) && IsDraw(pick) && IsDraw(restartPick)
    ensures var (r, o) := KeyPressed(g, c, pick, restartPick);
      && (o != IndexOutOfBounds ==> Playable(r))
      && (c != HardDrop ==> o != IndexOutOfBounds)
  {
    if g.started && g.piece.shape != NoBlock && c != TogglePause && !g.paused {
      assert !g.fallingDone;
      match c
      case MoveLeft => MovedPlayable(g, g.piece, g.curX - 1, g.curY);
      case MoveRight => MovedPlayable(g, g.piece, g.curX + 1, g.curY);
      case Rotate =>
        RotationKeepsAnchor(g.piece);
        MovedPlayable(g, RotatedRight(g.piece), g.curX, g.curY);
      case SoftDrop =>
        DescendedPlayable(g, pick, restartPick);
        DescendedFixesFreeCells(g, pick, restartPick);
      case HardDrop =>
        FixedPlayableUnlessCrashed(g.(curY := DropRowAsWritten(g.board, g.piece.offsets, g.curX, g.curY)), pick, restartPick);
      case TogglePause =>
      case OtherKey =>
    }
  }

  /** Fixing a piece that covers its anchor, with the anchor's column on the
      board and no clear pending: unless the writes raise the exception, the
      result is playable. The invariant says nothing about the cells the piece
      was written over, so this holds even where a block is overwritten. */
  lemma FixedPlayableUnlessCrashed(g: Game, pick: int, restartPick: int)
    requires WellFormed(g) && Offset(0, 0) in g.piece.offsets && g.score >= 0 && !g.fallingDone
    requires 0 <= g.curX < Width && IsDraw(pick) && IsDraw(restartPick)
    ensures Fixed(g, pick, restartPick).1 != IndexOutOfBounds ==> Playable(Fixed(g, pick, restartPick).0)
  {
    var idxs := PieceIndices(g.piece.offsets, g.curX, g.curY);
    var (b, ok) := Stamp(g.board, idxs, g.piece.shape);
    if ok {
      StampSucceedsIff(g.board, idxs, g.piece.shape);
      var i :| 0 <= i < 4 && g.piece.offsets[i] == Offset(0, 0);
      assert idxs[i] == g.curY * Width + g.curX;
      var h := LinesRemoved(g.(board := b));
      LinesRemovedEffects(g.(board := b));
      if !h.fallingDone {
        SpawnedPlayable(h, pick, restartPick);
      } else {
        TableRowsAreTetrominoes(NoBlock);
      }
    }
  }

  /** Finding, at the key: space pressed in the first state of a new game
      whose first piece is a Z raises the exception. */
  lemma KeyHardDropAsWrittenCrashes(pick: int, restartPick: int)
    requires IsDraw(pick) && IsDraw(restartPick)
    ensures var g := Started(Initial(400), 1);
      Playable(g) && KeyPressed(g, HardDrop, pick, restartPick).1 == IndexOutOfBounds
  {
    HardDropAsWrittenCrashes(pick, restartPick);
    StartedResets(Initial(400), 1);
  }

  /** With the hard drop corrected, every key keeps the invariant and none
      raises the exception. */
  lemma CorrectedKeyPressedPlayable(g: Game, c: Command, pick: int, restartPick: int)
    requires Playable(g) && IsDraw(pick) && IsDraw(restartPick)
    ensures Playable(CorrectedKeyPressed(g, c, pick, restartPick).0)
    ensures CorrectedKeyPressed(g, c, pick, restartPick).1 != IndexOutOfBounds
  {
    if c == HardDrop && KeyActive(g) {
      assert !g.fallingDone;
      HardDroppedPlayable(g, pick, restartPick);
      HardDropLandsOnShadow(g, pick, restartPick);
    } else {
      KeyPressedPlayable(g, c, pick, restartPick);
      KeysIgnoredWhenInactive(g, c, pick, restartPick);
    }
  }

  /** The score never falls during a game: a tick either ends the game,
      reporting the score it had, or leaves a score at least as high. */
  lemma TickScoreMonotone(g: Game, pick: int, restartPick: int)
    requires Playable(g) && IsDraw(pick) && IsDraw(restartPick)
    ensures var (r, o) := Ticked(g, pick, restartPick);
      (o.GameOver? ==> o.finalScore == g.score) && (!o.GameOver? ==> r.score >= g.score)
  {
    if g.fallingDone {
      SpawnedOutcome(g.(fallingDone := false), pick, restartPick);
    } else if !Fits(g.board, g.piece.offsets, g.curX, g.curY - 1) {
      FixedScore(g, pick, restartPick);
    }
  }

  /** Fixing, from any state, reports on game over the score the game had;
      otherwise the score has not fallen. */
  lemma FixedScore(g: Game, pick: int, restartPick: int)
    requires |g.board| == Cells && IsDraw(pick) && IsDraw(restartPick)
    ensures var (r, o) := Fixed(g, pick, restartPick);
      (o.GameOver? ==> o.finalScore == g.score) && (!o.GameOver? ==> r.score >= g.score)
  {
    var (b, ok) := Stamp(g.board, PieceIndices(g.piece.offsets, g.curX, g.curY), g.piece.shape);
    if ok {
      var h := LinesRemoved(g.(board := b));
      if !h.fallingDone {
        SpawnedOutcome(h, pick, restartPick);
      }
    }
  }

  /** The score never falls on a key either, the as-written hard drop
      included: a key that ends the game reports the score the game had, and
      otherwise the score is at least as high. */
  lemma KeyScoreMonotone(g: Game, c: Command, pick: int, restartPick: int)
    requires WellFormed(g) && IsDraw(pick) && IsDraw(restartPick)
    ensures var (r, o) := KeyPressed(g, c, pick, restartPick);
      (o.GameOver? ==> o.finalScore == g.score) && (!o.GameOver? ==> r.score >= g.score)
  {
    if KeyActive(g) {
      match c
      case SoftDrop =>
        if !Fits(g.board, g.piece.offsets, g.curX, g.curY - 1) {
          FixedScore(g, pick, restartPick);
        }
      case HardDrop =>
        FixedScore(g.(curY := DropRowAsWritten(g.board, g.piece.offsets, g.curX, g.curY)), pick, restartPick);
      case _ =>
    }
  }
}

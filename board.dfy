/** The playing field of GameBoardPanel as values: a flat row-major grid of
    10 x 22 cells with row 0 at the bottom, the placement test, row shifting,
    full-row clearing and the level-to-interval table. */
module Board {
  import opened Tetrominoes

  const Width := 10
  const Height := 22
  const Cells := 220
  const InitialTimerResolution := 370

  /** The board: `Cells` tags, cell (x, y) at index y * Width + x. */
  type Grid = seq<Shape>

  predicate InBoard(x: int, y: int)
  {
    0 <= x < Width && 0 <= y < Height
  }

  /** `curTetrominoPos`: the tag at column x, row y. */
  function CellAt(b: Grid, x: int, y: int): Shape
    requires |b| == Cells && InBoard(x, y)
  {
    b[y * Width + x]
  }

  /** The flat index of cell (x, y); exactly the board's cells map into [0, Cells). */
  lemma IndexOfCell(x: int, y: int)
    requires InBoard(x, y)
    ensures 0 <= y * Width + x < Cells
  {
  }

  /** The test `atomIsMovable` makes: every cell (x + dx, y - dy) of the piece
      lies on the board and holds NoBlock. */
  predicate Fits(b: Grid, offs: seq<Offset>, x: int, y: int)
    requires |b| == Cells
  {
    forall i :: 0 <= i < |offs| ==> Free(b, x, y, offs[i])
  }

  /** The cell a piece cell at offset `o` from (x, y) lands on is on the board and empty. */
  predicate Free(b: Grid, x: int, y: int, o: Offset)
    requires |b| == Cells
  {
    InBoard(x + o.x, y - o.y) && CellAt(b, x + o.x, y - o.y) == NoBlock
  }

  /** The board `initBoard` leaves: every cell NoBlock. */
  function EmptyGrid(): (b: Grid)
    ensures |b| == Cells && forall i :: 0 <= i < Cells ==> b[i] == NoBlock
  {
    seq(Cells, i => NoBlock)
  }

  /** `isFullLine`: no cell of the row holds NoBlock. */
  predicate RowFull(b: Grid, row: int)
    requires |b| == Cells && 0 <= row < Height
  {
    forall j :: 0 <= j < Width ==> CellAt(b, j, row) != NoBlock
  }

  /** `shiftLinesDown(fromRow)`: every row k with fromRow <= k < Height - 1
      receives the old row k + 1; the rows below fromRow and the top row keep
      their contents (the top row is not emptied). */
  function ShiftedDown(b: Grid, fromRow: int): (r: Grid)
    requires |b| == Cells && 0 <= fromRow < Height
    ensures |r| == Cells
    ensures forall x, y :: InBoard(x, y) && y < fromRow ==> CellAt(r, x, y) == CellAt(b, x, y)
    ensures forall x, y :: InBoard(x, y) && fromRow <= y < Height - 1 ==> CellAt(r, x, y) == CellAt(b, x, y + 1)
    ensures forall x, y :: InBoard(x, y) && y == Height - 1 ==> CellAt(r, x, y) == CellAt(b, x, y)
  {
    seq(Cells, i requires 0 <= i < Cells =>
      if fromRow * Width <= i < (Height - 1) * Width then b[i + Width] else b[i])
  }

  /** The scan of `removeFullLines` from row i down to row 0, with `n` full rows
      counted so far: a full row is counted and the rows above it shift down. */
  function ClearFrom(b: Grid, i: int, n: nat): (r: (Grid, nat))
    requires |b| == Cells && -1 <= i < Height
    ensures |r.0| == Cells
    decreases i + 1
  {
    if i < 0 then (b, n)
    else if RowFull(b, i) then ClearFrom(ShiftedDown(b, i), i - 1, n + 1)
    else ClearFrom(b, i - 1, n)
  }

  /** The whole scan of `removeFullLines`, from the top row down: the new grid
      and the number of full rows met. */
  function Cleared(b: Grid): (r: (Grid, nat))
    requires |b| == Cells
    ensures |r.0| == Cells
  {
    ClearFrom(b, Height - 1, 0)
  }

  /** The number of full rows among rows 0 .. k - 1. */
  function FullRowsBelow(b: Grid, k: int): (n: nat)
    requires |b| == Cells && 0 <= k <= Height
    ensures n <= k
  {
    if k == 0 then 0
    else FullRowsBelow(b, k - 1) + (if RowFull(b, k - 1) then 1 else 0)
  }

  /** Rows below `fromRow` are untouched by a shift, so their full-row count is too. */
  lemma {:induction false} ShiftKeepsCountBelow(b: Grid, fromRow: int, k: int)
    requires |b| == Cells && 0 <= k <= fromRow < Height
    ensures FullRowsBelow(ShiftedDown(b, fromRow), k) == FullRowsBelow(b, k)
  {
    if k > 0 {
      ShiftKeepsCountBelow(b, fromRow, k - 1);
      var r, row := ShiftedDown(b, fromRow), k - 1;
      assert RowFull(r, row) <==> RowFull(b, row) by {
        assert forall j :: 0 <= j < Width ==> CellAt(r, j, row) == CellAt(b, j, row);
      }
    }
  }

  /** The scan from row i counts exactly the rows 0 .. i that are full when it starts:
      a shift only touches rows at or above the row just counted. */
  lemma {:induction false} ClearFromCounts(b: Grid, i: int, n: nat)
    requires |b| == Cells && -1 <= i < Height
    ensures ClearFrom(b, i, n).1 == n + FullRowsBelow(b, i + 1)
    decreases i + 1
  {
    if i >= 0 {
      if RowFull(b, i) {
        ClearFromCounts(ShiftedDown(b, i), i - 1, n + 1);
        ShiftKeepsCountBelow(b, i, i);
      } else {
        ClearFromCounts(b, i - 1, n);
      }
    }
  }

  /** `removeFullLines` counts exactly the rows that were full before the call. */
  lemma ClearedCountsFullRows(b: Grid)
    requires |b| == Cells
    ensures Cleared(b).1 == FullRowsBelow(b, Height)
  {
    ClearFromCounts(b, Height - 1, 0);
  }

  /** With no full row, the scan changes nothing. */
  lemma {:induction false} ClearFromNoFullRow(b: Grid, i: int, n: nat)
    requires |b| == Cells && -1 <= i < Height
    requires forall r :: 0 <= r <= i ==> !RowFull(b, r)
    ensures ClearFrom(b, i, n) == (b, n)
    decreases i + 1
  {
    if i >= 0 {
      ClearFromNoFullRow(b, i - 1, n);
    }
  }

  /** The scan leaves no full row behind, provided the rows above the scan point
      are not full and the top row, which shifting never empties, is not full. */
  lemma {:induction false} ClearFromLeavesNoFullRow(b: Grid, i: int, n: nat)
    requires |b| == Cells && -1 <= i < Height
    requires !RowFull(b, Height - 1)
    requires forall r :: i < r < Height ==> !RowFull(b, r)
    ensures forall r :: 0 <= r < Height ==> !RowFull(ClearFrom(b, i, n).0, r)
    decreases i + 1
  {
    if i >= 0 {
      if RowFull(b, i) {
        var s := ShiftedDown(b, i);
        forall r | i - 1 < r < Height
          ensures !RowFull(s, r)
        {
          var above := if r < Height - 1 then r + 1 else r;
          assert !RowFull(b, above);
          var j :| 0 <= j < Width && CellAt(b, j, above) == NoBlock;
          assert CellAt(s, j, r) == NoBlock;
        }
        ClearFromLeavesNoFullRow(s, i - 1, n + 1);
      } else {
        ClearFromLeavesNoFullRow(b, i - 1, n);
      }
    }
  }

  /** If the top row is not full, no row is full after `removeFullLines`. */
  lemma ClearedLeavesNoFullRow(b: Grid)
    requires |b| == Cells && !RowFull(b, Height - 1)
    ensures forall r :: 0 <= r < Height ==> !RowFull(Cleared(b).0, r)
  {
    ClearFromLeavesNoFullRow(b, Height - 1, 0);
  }

  /** Java's `/` on `int`: the quotient truncated toward zero. */
  function JavaDiv(a: int, d: int): (q: int)
    requires d > 0
    ensures a >= 0 ==> q * d <= a < q * d + d
    ensures a < 0 ==> q * d - d < a <= q * d
  {
    if a >= 0 then a / d else -((-a) / d)
  }

  /** `setResolution`: the timer interval, in milliseconds, for the level
      `score / 10`. Level 10 alone is fastest; levels 9 down to 2 step up by 30;
      every other level, including those above 10, gets the initial 370. */
  function Resolution(score: int): (ms: int)
    ensures JavaDiv(score, 10) == 10 ==> ms == 100
    ensures 2 <= JavaDiv(score, 10) <= 9 ==> ms == 400 - 30 * JavaDiv(score, 10)
    ensures JavaDiv(score, 10) < 2 || JavaDiv(score, 10) > 10 ==> ms == InitialTimerResolution
  {
    match JavaDiv(score, 10)
    case 10 => 100
    case 9 => 130
    case 8 => 160
    case 7 => 190
    case 6 => 220
    case 5 => 250
    case 4 => 280
    case 3 => 310
    case 2 => 340
    case _ => InitialTimerResolution
  }

  /** Up to score 109 a higher score never gives a slower interval. */
  lemma ResolutionNonIncreasing(s: int, t: int)
    requires 0 <= s <= t < 110
    ensures Resolution(t) <= Resolution(s)
  {
    var ls, lt := JavaDiv(s, 10), JavaDiv(t, 10);
    assert ls <= lt <= 10;
  }

  /** The fastest interval belongs to scores 100 .. 109 only: from score 110 on,
      the level falls through the table and the interval is back at 370. */
  lemma FastestOnlyAtLevelTen(s: int)
    requires s >= 0
    ensures Resolution(s) == 100 <==> 100 <= s < 110
    ensures s >= 110 ==> Resolution(s) == InitialTimerResolution
  {
  }
}

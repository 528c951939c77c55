/** The falling piece: the eight shape tags, the table of four offsets per
    tag, the quarter-turn rotations, and the mutable `Tetromino` object that
    holds a tag and its offsets. Offsets are (x, y) with y pointing up. */
module Tetrominoes {

  /** The tags in declaration order. `NoBlock` is both the empty board cell
      and the "no active piece" marker. */
  datatype Shape = NoBlock | ZShape | SShape | IShape | TShape | OShape | LShape | JShape

  /** Number of tags (`Tetrominoes.values().length`). */
  const ShapeCount := 8

  /** Position of a tag in the declaration (`ordinal()`). */
  function Ordinal(s: Shape): (n: nat)
    ensures n < ShapeCount
  {
    match s
    case NoBlock => 0
    case ZShape => 1
    case SShape => 2
    case IShape => 3
    case TShape => 4
    case OShape => 5
    case LShape => 6
    case JShape => 7
  }

  /** `values()[i]`: the tag declared at position `i`. */
  function ShapeAt(i: nat): (s: Shape)
    requires i < ShapeCount
    ensures Ordinal(s) == i
    ensures i != 0 <==> s != NoBlock
  {
    [NoBlock, ZShape, SShape, IShape, TShape, OShape, LShape, JShape][i]
  }

  datatype Offset = Offset(x: int, y: int)

  /** The fixed shape table, one row of four offsets per tag, indexed by ordinal. */
  const ShapeTable: seq<seq<Offset>> := [
    [Offset(0, 0), Offset(0, 0), Offset(0, 0), Offset(0, 0)],
    [Offset(0, -1), Offset(0, 0), Offset(-1, 0), Offset(-1, 1)],
    [Offset(0, -1), Offset(0, 0), Offset(1, 0), Offset(1, 1)],
    [Offset(0, -1), Offset(0, 0), Offset(0, 1), Offset(0, 2)],
    [Offset(-1, 0), Offset(0, 0), Offset(1, 0), Offset(0, 1)],
    [Offset(0, 0), Offset(1, 0), Offset(0, 1), Offset(1, 1)],
    [Offset(-1, -1), Offset(0, -1), Offset(0, 0), Offset(0, 1)],
    [Offset(1, -1), Offset(0, -1), Offset(0, 0), Offset(0, 1)]
  ]

  /** The table row of a tag. */
  function Coords(s: Shape): (r: seq<Offset>)
    ensures |r| == 4
  {
    ShapeTable[Ordinal(s)]
  }

  /** The value a piece holds: its tag and its four offsets. */
  datatype Piece = Piece(shape: Shape, offsets: seq<Offset>)

  /** The piece `setShape(s)` produces. */
  function TablePiece(s: Shape): Piece
  {
    Piece(s, Coords(s))
  }

  /** Every table row of a real shape is a tetromino: four distinct cells, one of
      them the anchor itself; the NoBlock row is the anchor four times. */
  lemma TableRowsAreTetrominoes(s: Shape)
    ensures s != NoBlock ==> forall i, j :: 0 <= i < j < 4 ==> Coords(s)[i] != Coords(s)[j]
    ensures s == NoBlock ==> forall i :: 0 <= i < 4 ==> Coords(s)[i] == Offset(0, 0)
    ensures Offset(0, 0) in Coords(s)
  {
    match s
    case NoBlock =>
    case ZShape =>
    case SShape =>
    case IShape =>
    case TShape =>
    case OShape =>
    case LShape =>
    case JShape =>
  }

  /** A quarter turn of one offset, clockwise: (x, y) becomes (-y, x). */
  function TurnRight(o: Offset): Offset
  {
    Offset(-o.y, o.x)
  }

  /** A quarter turn of one offset, counter-clockwise: (x, y) becomes (y, -x). */
  function TurnLeft(o: Offset): Offset
  {
    Offset(o.y, -o.x)
  }

  /** `rotateRight`: every offset turned right, the tag kept; O is returned as it is. */
  function RotatedRight(p: Piece): (r: Piece)
    ensures r.shape == p.shape && |r.offsets| == |p.offsets|
  {
    if p.shape == OShape then p
    else Piece(p.shape, seq(|p.offsets|, i requires 0 <= i < |p.offsets| => TurnRight(p.offsets[i])))
  }

  /** `rotateLeft`: every offset turned left, the tag kept; O is returned as it is. */
  function RotatedLeft(p: Piece): (r: Piece)
    ensures r.shape == p.shape && |r.offsets| == |p.offsets|
  {
    if p.shape == OShape then p
    else Piece(p.shape, seq(|p.offsets|, i requires 0 <= i < |p.offsets| => TurnLeft(p.offsets[i])))
  }

  /** A left turn undoes a right turn, for every piece. */
  lemma RotateLeftUndoesRight(p: Piece)
    ensures RotatedLeft(RotatedRight(p)) == p
  {
    if p.shape != OShape {
      var q := RotatedLeft(RotatedRight(p));
      assert forall i :: 0 <= i < |p.offsets| ==> q.offsets[i] == p.offsets[i];
    }
  }

  /** A right turn undoes a left turn, for every piece. */
  lemma RotateRightUndoesLeft(p: Piece)
    ensures RotatedRight(RotatedLeft(p)) == p
  {
    if p.shape != OShape {
      var q := RotatedRight(RotatedLeft(p));
      assert forall i :: 0 <= i < |p.offsets| ==> q.offsets[i] == p.offsets[i];
    }
  }

  /** Four right turns give back the piece's offsets (and its tag). */
  lemma FourRightTurnsRestore(p: Piece)
    ensures RotatedRight(RotatedRight(RotatedRight(RotatedRight(p)))) == p
  {
    if p.shape != OShape {
      var q := RotatedRight(RotatedRight(RotatedRight(RotatedRight(p))));
      assert forall i :: 0 <= i < |p.offsets| ==> q.offsets[i] == p.offsets[i];
    }
  }

  /** Turning keeps the anchor offset (0, 0), so a rotated piece still covers its anchor. */
  lemma RotationKeepsAnchor(p: Piece)
    requires Offset(0, 0) in p.offsets
    ensures Offset(0, 0) in RotatedRight(p).offsets
    ensures Offset(0, 0) in RotatedLeft(p).offsets
  {
    var i :| 0 <= i < |p.offsets| && p.offsets[i] == Offset(0, 0);
    if p.shape == OShape {
    } else {
      var right := seq(|p.offsets|, i requires 0 <= i < |p.offsets| => TurnRight(p.offsets[i]));
      var left := seq(|p.offsets|, i requires 0 <= i < |p.offsets| => TurnLeft(p.offsets[i]));
      assert right[i] == Offset(0, 0);
      assert left[i] == Offset(0, 0);
      assert RotatedRight(p).offsets == right;
      assert RotatedLeft(p).offsets == left;
    }
  }

  /** The O row is not closed under a quarter turn: turned, it would cover other
      cells. Returning the O piece unturned is what keeps it in place. */
  lemma TurningOWouldMoveIt()
    ensures TurnRight(Coords(OShape)[2]) !in Coords(OShape)
    ensures TurnLeft(Coords(OShape)[1]) !in Coords(OShape)
  {
  }

  /** The least y offset (`minY`). */
  function LowestY(offs: seq<Offset>): int
    requires |offs| > 0
  {
    if |offs| == 1 then offs[0].y
    else
      var rest := LowestY(offs[1..]);
      if offs[0].y <= rest then offs[0].y else rest
  }

  /** `LowestY` is a lower bound of the y offsets that one of them attains. */
  lemma {:induction false} LowestYIsLeast(offs: seq<Offset>)
    requires |offs| > 0
    ensures forall i :: 0 <= i < |offs| ==> LowestY(offs) <= offs[i].y
    ensures exists i :: 0 <= i < |offs| && offs[i].y == LowestY(offs)
  {
    if |offs| == 1 {
      assert offs[0].y == LowestY(offs);
    } else {
      LowestYIsLeast(offs[1..]);
      var j :| 0 <= j < |offs[1..]| && offs[1..][j].y == LowestY(offs[1..]);
      if offs[0].y > LowestY(offs[1..]) {
        assert offs[j + 1].y == LowestY(offs);
      } else {
        assert offs[0].y == LowestY(offs);
      }
      forall i | 1 <= i < |offs|
        ensures LowestY(offs) <= offs[i].y
      {
        assert offs[i] == offs[1..][i - 1];
      }
    }
  }

  /** The mutable piece object: a tag and a 4x2 array whose row i is offset i. */
  class Tetromino {
    var shape: Shape
    var coords: array2<int>

    ghost predicate Valid()
      reads this
    {
      coords.Length0 == 4 && coords.Length1 == 2
    }

    /** The piece this object holds. */
    ghost function Value(): (p: Piece)
      requires Valid()
      reads this, coords
      ensures p.shape == shape && |p.offsets| == 4
    {
      Piece(shape, [Offset(coords[0, 0], coords[0, 1]), Offset(coords[1, 0], coords[1, 1]),
                    Offset(coords[2, 0], coords[2, 1]), Offset(coords[3, 0], coords[3, 1])])
    }

    /** A new piece holds the NoBlock row. */
    constructor ()
      ensures Valid() && fresh(coords)
      ensures Value() == TablePiece(NoBlock)
    {
      coords := new int[4, 2];
      new;
      SetShape(NoBlock);
    }

    /** Loads table row `s` into `coords` in place and sets the tag to `s`. */
    method SetShape(s: Shape)
      requires Valid()
      modifies this, coords
      ensures Valid() && coords == old(coords)
      ensures Value() == TablePiece(s)
    {
      shape := s;
      var row := ShapeTable[Ordinal(s)];
      for i := 0 to 4
        invariant Valid() && coords == old(coords) && shape == s
        invariant forall j :: 0 <= j < i ==> coords[j, 0] == row[j].x && coords[j, 1] == row[j].y
      {
        coords[i, 0] := row[i].x;
        coords[i, 1] := row[i].y;
      }
    }

    /** `setRandomShape`, with the draw of `nextInt(1, 8)` passed in as `x`:
        the piece becomes one of the seven real shapes. */
    method SetRandomShape(x: nat)
      requires Valid() && 1 <= x < ShapeCount
      modifies this, coords
      ensures Valid() && coords == old(coords)
      ensures Value() == TablePiece(ShapeAt(x)) && shape != NoBlock
    {
      SetShape(ShapeAt(x));
    }

    method GetShape() returns (s: Shape)
      requires Valid()
      ensures s == Value().shape
    {
      s := shape;
    }

    /** The x offset of cell `index`. */
    method GetX(index: nat) returns (x: int)
      requires Valid() && index < 4
      ensures x == Value().offsets[index].x
    {
      x := coords[index, 0];
    }

    /** The y offset of cell `index`. */
    method GetY(index: nat) returns (y: int)
      requires Valid() && index < 4
      ensures y == Value().offsets[index].y
    {
      y := coords[index, 1];
    }

    /** `minX`: the least x offset, found by a scan. */
    method MinX() returns (m: int)
      requires Valid()
      ensures forall i :: 0 <= i < 4 ==> m <= Value().offsets[i].x
      ensures exists i :: 0 <= i < 4 && Value().offsets[i].x == m
    {
      m := coords[0, 0];
      ghost var at := 0;
      for i := 1 to 4
        invariant forall j :: 0 <= j < i ==> m <= coords[j, 0]
        invariant 0 <= at < i && coords[at, 0] == m
      {
        if coords[i, 0] < m {
          m, at := coords[i, 0], i;
        }
      }
      assert Value().offsets[at].x == m;
    }

    /** `minY`: the least y offset, found by a scan; it agrees with `LowestY`. */
    method MinY() returns (m: int)
      requires Valid()
      ensures m == LowestY(Value().offsets)
    {
      m := coords[0, 1];
      ghost var at := 0;
      for i := 1 to 4
        invariant forall j :: 0 <= j < i ==> m <= coords[j, 1]
        invariant 0 <= at < i && coords[at, 1] == m
      {
        if coords[i, 1] < m {
          m, at := coords[i, 1], i;
        }
      }
      assert Value().offsets[at].y == m;
      ghost var low := LowestY(Value().offsets);
      LowestYIsLeast(Value().offsets);
      ghost var k :| 0 <= k < 4 && Value().offsets[k].y == low;
      assert m <= Value().offsets[k].y;
    }

    /** `rotateLeft`: the O piece returns the receiver itself; any other piece
        returns a fresh object holding the left-turned offsets. The receiver
        is left as it was (the method modifies nothing it did not allocate). */
    method RotateLeft() returns (r: Tetromino)
      requires Valid()
      ensures r.Valid()
      ensures shape == OShape ==> r == this
      ensures shape != OShape ==> fresh(r) && fresh(r.coords)
      ensures r.Value() == RotatedLeft(Value())
    {
      if shape == OShape {
        return this;
      }
      r := new Tetromino();
      r.shape := shape;
      for i := 0 to 4
        invariant r.Valid() && fresh(r) && fresh(r.coords) && r.shape == shape
        invariant forall j :: 0 <= j < i ==> r.coords[j, 0] == coords[j, 1] && r.coords[j, 1] == -coords[j, 0]
      {
        r.coords[i, 0] := coords[i, 1];
        r.coords[i, 1] := -coords[i, 0];
      }
    }

    /** `rotateRight`: the O piece returns the receiver itself; any other piece
        returns a fresh object holding the right-turned offsets. */
    method RotateRight() returns (r: Tetromino)
      requires Valid()
      ensures r.Valid()
      ensures shape == OShape ==> r == this
      ensures shape != OShape ==> fresh(r) && fresh(r.coords)
      ensures r.Value() == RotatedRight(Value())
    {
      if shape == OShape {
        return this;
      }
      r := new Tetromino();
      r.shape := shape;
      for i := 0 to 4
        invariant r.Valid() && fresh(r) && fresh(r.coords) && r.shape == shape
        invariant forall j :: 0 <= j < i ==> r.coords[j, 0] == -coords[j, 1] && r.coords[j, 1] == coords[j, 0]
      {
        r.coords[i, 0] := -coords[i, 1];
        r.coords[i, 1] := coords[i, 0];
      }
    }
  }
}

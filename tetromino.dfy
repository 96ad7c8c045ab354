/** A falling piece (class Tetromino): a 0/1 shape matrix, its type and its (x, y) anchor. */
module Tetromino {
  import opened Config

  datatype PieceType = I | O | T | S | Z | J | L

  /** The colours of COLORS, used only as tags of occupied cells. */
  datatype Color = Cyan | Yellow | Purple | Green | Red | Blue | Orange

  /** A shape matrix: shape[row][col] is true where the piece has a block. */
  type Shape = seq<seq<bool>>

  /** A piece value. The anchor (x, y) is the board cell of shape[0][0]. */
  datatype Piece = Piece(kind: PieceType, shape: Shape, x: int, y: int)

  /** A rectangular matrix with at least one row and one column. */
  predicate IsMatrix(s: Shape)
  {
    |s| > 0 && |s[0]| > 0 && forall r :: 0 <= r < |s| ==> |s[r]| == |s[0]|
  }

  function Cols(s: Shape): nat
    requires |s| > 0
  {
    |s[0]|
  }

  /** The spawn orientation of each type (SHAPES). */
  function SpawnShape(t: PieceType): Shape
  {
    match t
    case I => [[true, true, true, true]]
    case O => [[true, true], [true, true]]
    case T => [[false, true, false], [true, true, true]]
    case S => [[false, true, true], [true, true, false]]
    case Z => [[true, true, false], [false, true, true]]
    case J => [[true, false, false], [true, true, true]]
    case L => [[false, false, true], [true, true, true]]
  }

  function ColorOf(t: PieceType): Color
  {
    match t
    case I => Cyan
    case O => Yellow
    case T => Purple
    case S => Green
    case Z => Red
    case J => Blue
    case L => Orange
  }

  /** The (row, col) positions of the filled cells of a shape. */
  ghost function FilledCells(s: Shape): set<(int, int)>
  {
    set r, c | 0 <= r < |s| && 0 <= c < |s[r]| && s[r][c] :: (r, c)
  }

  ghost predicate HasBlock(s: Shape)
  {
    FilledCells(s) != {}
  }

  /** A freshly constructed piece: spawn orientation, centred horizontally, on row 0. */
  function NewPiece(t: PieceType): (p: Piece)
    ensures p.kind == t && p.y == 0
    ensures IsMatrix(p.shape) && HasBlock(p.shape) && |p.shape| <= 2
    ensures p.shape == SpawnShape(t)
    ensures 0 <= p.x && p.x + Cols(p.shape) <= GridWidth
    // centred: the free columns left of the piece equal those right of it, or exceed them by one
    ensures 0 <= p.x - (GridWidth - (p.x + Cols(p.shape))) <= 1
  {
    var s := SpawnShape(t);
    assert (|s| - 1, 1) in FilledCells(s);
    Piece(t, s, GridWidth / 2 - |s[0]| / 2, 0)
  }

  /** Clockwise quarter turn: reverse the rows, then transpose; an r x c matrix becomes c x r. */
  function RotateClockwise(s: Shape): (r: Shape)
    requires IsMatrix(s)
    ensures IsMatrix(r) && |r| == Cols(s) && Cols(r) == |s|
  {
    seq(Cols(s), i requires 0 <= i < Cols(s) =>
      seq(|s|, j requires 0 <= j < |s| => s[|s| - 1 - j][i]))
  }

  /** Counter-clockwise quarter turn: transpose, then reverse the rows. */
  function RotateCounterclockwise(s: Shape): (r: Shape)
    requires IsMatrix(s)
    ensures IsMatrix(r) && |r| == Cols(s) && Cols(r) == |s|
  {
    seq(Cols(s), i requires 0 <= i < Cols(s) =>
      seq(|s|, j requires 0 <= j < |s| => s[j][Cols(s) - 1 - i]))
  }

  /** A counter-clockwise turn undoes a clockwise one. */
  lemma CounterclockwiseUndoesClockwise(s: Shape)
    requires IsMatrix(s)
    ensures RotateCounterclockwise(RotateClockwise(s)) == s
  {
    var r := RotateCounterclockwise(RotateClockwise(s));
    forall i | 0 <= i < |s|
      ensures r[i] == s[i]
    {
      assert |r[i]| == |s[i]|;
    }
  }

  /** A clockwise turn undoes a counter-clockwise one. */
  lemma ClockwiseUndoesCounterclockwise(s: Shape)
    requires IsMatrix(s)
    ensures RotateClockwise(RotateCounterclockwise(s)) == s
  {
    var r := RotateClockwise(RotateCounterclockwise(s));
    forall i | 0 <= i < |s|
      ensures r[i] == s[i]
    {
      assert |r[i]| == |s[i]|;
    }
  }

  /** Two clockwise turns give the half turn: the cell at (i, j) comes from (R-1-i, C-1-j). */
  lemma HalfTurn(s: Shape)
    requires IsMatrix(s)
    ensures var h := RotateClockwise(RotateClockwise(s));
      IsMatrix(h) && |h| == |s| && Cols(h) == Cols(s) &&
      forall i, j :: 0 <= i < |s| && 0 <= j < Cols(s) ==> h[i][j] == s[|s| - 1 - i][Cols(s) - 1 - j]
  {
  }

  /** Four clockwise turns restore the original matrix exactly. */
  lemma FourClockwiseTurnsRestore(s: Shape)
    requires IsMatrix(s)
    ensures RotateClockwise(RotateClockwise(RotateClockwise(RotateClockwise(s)))) == s
  {
    var h := RotateClockwise(RotateClockwise(s));
    HalfTurn(s);
    HalfTurn(h);
    var f := RotateClockwise(RotateClockwise(h));
    forall i | 0 <= i < |s|
      ensures f[i] == s[i]
    {
      assert |f[i]| == |s[i]|;
    }
  }

  /** The images of a set of cells under (r, c) |-> (c, rows - 1 - r). */
  ghost function QuarterTurnImage(A: set<(int, int)>, rows: int): set<(int, int)>
  {
    set p | p in A :: (p.1, rows - 1 - p.0)
  }

  lemma {:induction false} QuarterTurnImageSize(A: set<(int, int)>, rows: int)
    ensures |QuarterTurnImage(A, rows)| == |A|
    decreases |A|
  {
    if A != {} {
      var a :| a in A;
      var rest := A - {a};
      QuarterTurnImageSize(rest, rows);
      assert QuarterTurnImage(A, rows) == QuarterTurnImage(rest, rows) + {(a.1, rows - 1 - a.0)};
      assert (a.1, rows - 1 - a.0) !in QuarterTurnImage(rest, rows);
    }
  }

  /** Turning a shape clockwise keeps the number of filled cells. */
  lemma RotateClockwiseKeepsBlockCount(s: Shape)
    requires IsMatrix(s)
    ensures |FilledCells(RotateClockwise(s))| == |FilledCells(s)|
  {
    var r := RotateClockwise(s);
    var img := QuarterTurnImage(FilledCells(s), |s|);
    forall q | q in FilledCells(r)
      ensures q in img
    {
      assert (|s| - 1 - q.1, q.0) in FilledCells(s);
    }
    forall q | q in img
      ensures q in FilledCells(r)
    {
      var p :| p in FilledCells(s) && q == (p.1, |s| - 1 - p.0);
      assert r[p.1][|s| - 1 - p.0] == s[p.0][p.1];
    }
    assert FilledCells(r) == img;
    QuarterTurnImageSize(FilledCells(s), |s|);
  }

  function RotatedClockwise(p: Piece): (q: Piece)
    requires IsMatrix(p.shape)
    ensures q.kind == p.kind && q.x == p.x && q.y == p.y
    ensures IsMatrix(q.shape) && (HasBlock(p.shape) ==> HasBlock(q.shape))
  {
    RotateClockwiseKeepsBlockCount(p.shape);
    p.(shape := RotateClockwise(p.shape))
  }

  function RotatedCounterclockwise(p: Piece): (q: Piece)
    requires IsMatrix(p.shape)
    ensures q.kind == p.kind && q.x == p.x && q.y == p.y && IsMatrix(q.shape)
    ensures RotatedClockwise(q) == p
  {
    ClockwiseUndoesCounterclockwise(p.shape);
    p.(shape := RotateCounterclockwise(p.shape))
  }

  /** The blocks of one shape row `row` drawn at board row y from column x, left to right. */
  function RowBlocks(row: seq<bool>, x: int, y: int): seq<(int, int)>
  {
    if row == [] then []
    else RowBlocks(row[..|row| - 1], x, y) + (if row[|row| - 1] then [(x + |row| - 1, y)] else [])
  }

  /** The blocks of a shape anchored at (x, y), in row-major order. */
  function ShapeBlocks(s: Shape, x: int, y: int): seq<(int, int)>
  {
    if s == [] then []
    else ShapeBlocks(s[..|s| - 1], x, y) + RowBlocks(s[|s| - 1], x, y + |s| - 1)
  }

  /** get_blocks: the (x, y) board coordinates of the piece's blocks. */
  function Blocks(p: Piece): seq<(int, int)>
  {
    ShapeBlocks(p.shape, p.x, p.y)
  }

  /** Board cell (cx, cy) is covered by a filled cell of the piece. */
  predicate Covers(p: Piece, cx: int, cy: int)
  {
    0 <= cy - p.y < |p.shape| && 0 <= cx - p.x < |p.shape[cy - p.y]| && p.shape[cy - p.y][cx - p.x]
  }

  lemma {:induction false} RowBlocksExact(row: seq<bool>, x: int, y: int, cx: int, cy: int)
    ensures (cx, cy) in RowBlocks(row, x, y) <==> cy == y && 0 <= cx - x < |row| && row[cx - x]
    decreases |row|
  {
    if row != [] {
      RowBlocksExact(row[..|row| - 1], x, y, cx, cy);
    }
  }

  lemma {:induction false} ShapeBlocksExact(s: Shape, x: int, y: int, cx: int, cy: int)
    ensures (cx, cy) in ShapeBlocks(s, x, y) <==>
      0 <= cy - y < |s| && 0 <= cx - x < |s[cy - y]| && s[cy - y][cx - x]
    decreases |s|
  {
    if s != [] {
      ShapeBlocksExact(s[..|s| - 1], x, y, cx, cy);
      RowBlocksExact(s[|s| - 1], x, y + |s| - 1, cx, cy);
    }
  }

  /** get_blocks lists exactly the board cells covered by the piece's filled cells. */
  lemma BlocksExact(p: Piece, cx: int, cy: int)
    ensures (cx, cy) in Blocks(p) <==> Covers(p, cx, cy)
  {
    ShapeBlocksExact(p.shape, p.x, p.y, cx, cy);
  }
}

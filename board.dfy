/** The playfield: a GridHeight x GridWidth grid of optional colours, row 0 at the top. */
module Board {
  import opened Config
  import opened Options
  import opened Tetromino

  datatype Cell = Empty | Block(color: Color)

  type Grid = seq<seq<Cell>>

  predicate WellFormed(g: Grid)
  {
    |g| == GridHeight && forall r :: 0 <= r < |g| ==> |g[r]| == GridWidth
  }

  function EmptyRow(): (row: seq<Cell>)
    ensures |row| == GridWidth && forall c :: 0 <= c < |row| ==> row[c] == Empty
  {
    seq(GridWidth, _ => Empty)
  }

  function EmptyGrid(): (g: Grid)
    ensures WellFormed(g)
    ensures forall r, c :: 0 <= r < GridHeight && 0 <= c < GridWidth ==> g[r][c] == Empty
  {
    seq(GridHeight, _ => EmptyRow())
  }

  /** A block may sit at (x, y): inside the side walls, above the floor, and on a free cell
      unless it is above the visible grid (y < 0). */
  predicate CellOpen(g: Grid, x: int, y: int)
    requires WellFormed(g)
  {
    0 <= x < GridWidth && y < GridHeight && (y >= 0 ==> g[y][x] == Empty)
  }

  /** Every filled cell of shape s, anchored at (x, y), is open. */
  predicate ShapeFits(g: Grid, s: Shape, x: int, y: int)
    requires WellFormed(g)
  {
    forall r, c :: 0 <= r < |s| && 0 <= c < |s[r]| && s[r][c] ==> CellOpen(g, x + c, y + r)
  }

  /** is_valid_position: every block of p, shifted by (dx, dy), is open. */
  predicate Fits(g: Grid, p: Piece, dx: int, dy: int)
    requires WellFormed(g)
  {
    ShapeFits(g, p.shape, p.x + dx, p.y + dy)
  }

  /** is_valid_position fails exactly when some block of get_blocks, shifted, is not open. */
  lemma FitsByBlocks(g: Grid, p: Piece, dx: int, dy: int)
    requires WellFormed(g)
    ensures Fits(g, p, dx, dy) <==>
      forall k :: 0 <= k < |Blocks(p)| ==> CellOpen(g, Blocks(p)[k].0 + dx, Blocks(p)[k].1 + dy)
  {
    var bs := Blocks(p);
    if Fits(g, p, dx, dy) {
      forall k | 0 <= k < |bs|
        ensures CellOpen(g, bs[k].0 + dx, bs[k].1 + dy)
      {
        BlocksExact(p, bs[k].0, bs[k].1);
        var r, c := bs[k].1 - p.y, bs[k].0 - p.x;
        assert p.shape[r][c];
      }
    } else {
      var r, c :| 0 <= r < |p.shape| && 0 <= c < |p.shape[r]| && p.shape[r][c] &&
        !CellOpen(g, p.x + c + dx, p.y + r + dy);
      BlocksExact(p, p.x + c, p.y + r);
      var k :| 0 <= k < |bs| && bs[k] == (p.x + c, p.y + r);
      assert !CellOpen(g, bs[k].0 + dx, bs[k].1 + dy);
    }
  }

  /** Testing a shifted piece is testing the original with the offset. */
  lemma FitsShift(g: Grid, p: Piece, dx: int, dy: int)
    requires WellFormed(g)
    ensures Fits(g, p.(x := p.x + dx, y := p.y + dy), 0, 0) <==> Fits(g, p, dx, dy)
    ensures Fits(g, p.(x := p.x + dx, y := p.y + dy), 0, 1) <==> Fits(g, p, dx, dy + 1)
  {
  }

  /** Every block of the piece lies between the side walls and above the floor; blocks above
      the visible grid are allowed. Locking such a piece indexes the grid only in range. */
  predicate InBounds(p: Piece)
  {
    forall r, c :: 0 <= r < |p.shape| && 0 <= c < |p.shape[r]| && p.shape[r][c] ==>
      0 <= p.x + c < GridWidth && p.y + r < GridHeight
  }

  /** The standing assumptions on the active piece. */
  ghost predicate PieceOk(p: Piece)
  {
    IsMatrix(p.shape) && HasBlock(p.shape) && InBounds(p)
  }

  lemma FittingIsInBounds(g: Grid, p: Piece, dx: int, dy: int)
    requires WellFormed(g) && Fits(g, p, dx, dy)
    ensures InBounds(p.(x := p.x + dx, y := p.y + dy))
  {
    var q := p.(x := p.x + dx, y := p.y + dy);
    forall r, c | 0 <= r < |q.shape| && 0 <= c < |q.shape[r]| && q.shape[r][c]
      ensures 0 <= q.x + c < GridWidth && q.y + r < GridHeight
    {
      assert CellOpen(g, p.x + c + dx, p.y + r + dy);
    }
  }

  lemma NewPieceInBounds(t: PieceType)
    ensures PieceOk(NewPiece(t))
  {
  }

  /** A piece that has a block and fits with offset dy lies above the floor. */
  lemma FitsAboveFloor(g: Grid, p: Piece, dx: int, dy: int)
    requires WellFormed(g) && HasBlock(p.shape) && Fits(g, p, dx, dy)
    ensures p.y + dy < GridHeight
  {
    var rc :| rc in FilledCells(p.shape);
    assert CellOpen(g, p.x + rc.1 + dx, p.y + rc.0 + dy);
  }

  /** The grid after lock_piece writes the piece's colour: covered cells on or below row 0
      become occupied, every other cell keeps its value. */
  function Stamp(g: Grid, p: Piece): (r: Grid)
    requires WellFormed(g)
    ensures WellFormed(r)
  {
    seq(GridHeight, y requires 0 <= y < GridHeight =>
      seq(GridWidth, x requires 0 <= x < GridWidth =>
        if Covers(p, x, y) then Block(ColorOf(p.kind)) else g[y][x]))
  }

  /** Each block of an in-bounds piece indexes a column of the grid and lies above the floor. */
  lemma BlockInBounds(p: Piece, k: int)
    requires InBounds(p) && 0 <= k < |Blocks(p)|
    ensures 0 <= Blocks(p)[k].0 < GridWidth && Blocks(p)[k].1 < GridHeight
  {
    BlocksExact(p, Blocks(p)[k].0, Blocks(p)[k].1);
  }

  /** Two well-formed grids with the same cells are the same grid. */
  lemma SameCells(a: Grid, b: Grid)
    requires WellFormed(a) && WellFormed(b)
    requires forall y, x :: 0 <= y < GridHeight && 0 <= x < GridWidth ==> a[y][x] == b[y][x]
    ensures a == b
  {
    forall y | 0 <= y < GridHeight ensures a[y] == b[y] {
    }
  }

  /** Stamping writes exactly the cells listed by get_blocks. */
  lemma StampWritesBlocks(g: Grid, p: Piece, x: int, y: int)
    requires WellFormed(g) && 0 <= y < GridHeight && 0 <= x < GridWidth
    ensures Stamp(g, p)[y][x] == if (x, y) in Blocks(p) then Block(ColorOf(p.kind)) else g[y][x]
  {
    BlocksExact(p, x, y);
  }

  /** lock_piece's writes: the cells listed by get_blocks that lie on the visible grid take
      the piece's colour, and every other cell keeps its value. */
  lemma StampExact(g: Grid, p: Piece)
    requires WellFormed(g)
    ensures forall y, x :: 0 <= y < GridHeight && 0 <= x < GridWidth ==>
      Stamp(g, p)[y][x] == if (x, y) in Blocks(p) then Block(ColorOf(p.kind)) else g[y][x]
  {
    forall y, x | 0 <= y < GridHeight && 0 <= x < GridWidth
      ensures Stamp(g, p)[y][x] == if (x, y) in Blocks(p) then Block(ColorOf(p.kind)) else g[y][x]
    {
      StampWritesBlocks(g, p, x, y);
    }
  }

  /** Every cell of the row is occupied. */
  predicate RowFull(row: seq<Cell>)
  {
    forall x :: 0 <= x < |row| ==> row[x] != Empty
  }

  predicate StrictlyAscending(rows: seq<int>)
  {
    forall i, j :: 0 <= i < j < |rows| ==> rows[i] < rows[j]
  }

  /** The full rows among rows 0 .. n-1, top to bottom. */
  function FullRowsBelow(g: Grid, n: nat): (rows: seq<int>)
    requires WellFormed(g) && n <= GridHeight
    ensures forall i :: 0 <= i < |rows| ==> 0 <= rows[i] < n
    ensures StrictlyAscending(rows)
    ensures forall y :: y in rows <==> 0 <= y < n && RowFull(g[y])
  {
    if n == 0 then []
    else FullRowsBelow(g, n - 1) + (if RowFull(g[n - 1]) then [n - 1] else [])
  }

  /** The rows clear_lines collects: every full row, in ascending order. */
  function FullRows(g: Grid): (rows: seq<int>)
    requires WellFormed(g)
    ensures StrictlyAscending(rows)
    ensures forall y :: y in rows <==> 0 <= y < GridHeight && RowFull(g[y])
    ensures |rows| <= GridHeight
  {
    var rows := FullRowsBelow(g, GridHeight);
    AscendingBound(rows, 0, GridHeight);
    rows
  }

  /** Two strictly ascending lists with the same members are the same list. */
  lemma {:induction false} AscendingUnique(a: seq<int>, b: seq<int>)
    requires StrictlyAscending(a) && StrictlyAscending(b)
    requires forall y :: y in a <==> y in b
    ensures a == b
    decreases |a|
  {
    if a != [] {
      assert a[0] in a;
    }
    if b != [] {
      assert b[0] in b;
    }
    if a != [] && b != [] {
      var i :| 0 <= i < |a| && a[i] == b[0];
      var j :| 0 <= j < |b| && b[j] == a[0];
      assert a[0] == b[0];
      forall y ensures y in a[1..] <==> y in b[1..] {
        AscendingTail(a, y);
        AscendingTail(b, y);
      }
      AscendingUnique(a[1..], b[1..]);
    }
  }

  /** The tail of a non-empty ascending list holds every member but the first. */
  lemma AscendingTail(a: seq<int>, y: int)
    requires StrictlyAscending(a) && a != []
    ensures y in a[1..] <==> y in a && y != a[0]
  {
    if y in a && y != a[0] {
      var k :| 0 <= k < |a| && a[k] == y;
      assert a[1..][k - 1] == y;
    }
    if y in a[1..] {
      var k :| 0 <= k < |a| - 1 && a[1..][k] == y;
      assert a[k + 1] == y;
    }
  }

  /** A strictly ascending list of values in [lo, n) has at most n - lo entries. */
  lemma {:induction false} AscendingBound(rows: seq<int>, lo: int, n: int)
    requires StrictlyAscending(rows)
    requires lo <= n
    requires forall i :: 0 <= i < |rows| ==> lo <= rows[i] < n
    ensures |rows| <= n - lo
    decreases |rows|
  {
    if |rows| > 0 {
      var last := rows[|rows| - 1];
      var pre := rows[..|rows| - 1];
      assert forall i :: 0 <= i < |pre| ==> lo <= pre[i] < last by {
        forall i | 0 <= i < |pre| ensures lo <= pre[i] < last {
          assert pre[i] == rows[i];
        }
      }
      AscendingBound(pre, lo, last);
      assert lo <= last < n;
    }
  }

  /** Row indices that can be deleted from a grid. */
  predicate RowsInGrid(rows: seq<int>)
  {
    forall i :: 0 <= i < |rows| ==> 0 <= rows[i] < GridHeight
  }

  function DeleteRow<X>(g: seq<X>, y: int): (r: seq<X>)
    requires 0 <= y < |g|
    ensures |r| == |g| - 1
  {
    g[..y] + g[y + 1..]
  }

  /** One step of finish_clearing_animation: `del grid[y]`, then an empty row at the top. */
  function DropRowAt(g: Grid, y: int): (r: Grid)
    requires WellFormed(g) && 0 <= y < GridHeight
    ensures WellFormed(r)
  {
    [EmptyRow()] + DeleteRow(g, y)
  }

  /** finish_clearing_animation as written: for y in reversed(rows), delete row y of the
      CURRENT grid and insert an empty row at the top. */
  function RemoveRowsAsWritten(g: Grid, rows: seq<int>): (r: Grid)
    requires WellFormed(g) && RowsInGrid(rows)
    ensures WellFormed(r)
    decreases |rows|
  {
    if rows == [] then g
    else RemoveRowsAsWritten(DropRowAt(g, rows[|rows| - 1]), rows[..|rows| - 1])
  }

  /** The rows of g whose index is not in `rows`, in their original order. */
  function Kept<X>(g: seq<X>, rows: seq<int>): seq<X>
  {
    if g == [] then []
    else Kept(g[..|g| - 1], rows) + (if |g| - 1 in rows then [] else [g[|g| - 1]])
  }

  function EmptyRows(n: nat): (r: Grid)
    ensures |r| == n && forall i :: 0 <= i < n ==> r[i] == EmptyRow()
  {
    seq(n, _ => EmptyRow())
  }

  /** Delete the given ascending rows, highest first, without inserting anything. */
  function DeleteRows<X>(g: seq<X>, rows: seq<int>): (r: seq<X>)
    requires StrictlyAscending(rows)
    requires forall i :: 0 <= i < |rows| ==> 0 <= rows[i] < |g|
    ensures |r| == |g| - |rows|
    ensures forall i :: 0 <= i < |r| ==> r[i] in g
    decreases |rows|
  {
    if rows == [] then g
    else DeleteRows(DeleteRow(g, rows[|rows| - 1]), rows[..|rows| - 1])
  }

  /** Row removal as intended: delete every listed row, then put as many empty rows on top. */
  function RemoveRows(g: Grid, rows: seq<int>): (r: Grid)
    requires WellFormed(g) && RowsInGrid(rows) && StrictlyAscending(rows)
    ensures WellFormed(r)
  {
    AscendingBound(rows, 0, GridHeight);
    EmptyRows(|rows|) + DeleteRows(g, rows)
  }

  lemma {:induction false} KeptSame<X>(g: seq<X>, A: seq<int>, B: seq<int>)
    requires forall i :: 0 <= i < |g| ==> (i in A <==> i in B)
    ensures Kept(g, A) == Kept(g, B)
    decreases |g|
  {
    if g != [] {
      KeptSame(g[..|g| - 1], A, B);
    }
  }

  lemma KeptNone<X>(g: seq<X>)
    ensures Kept(g, []) == g
    decreases |g|
  {
    if g != [] {
      KeptNone(g[..|g| - 1]);
    }
  }

  /** Deleting row y, when every other listed row lies above it, is keeping the rest. */
  lemma {:induction false} DeleteRowKept<X>(g: seq<X>, rows: seq<int>, y: int)
    requires 0 <= y < |g|
    requires forall i :: 0 <= i < |rows| ==> rows[i] < y
    ensures Kept(DeleteRow(g, y), rows) == Kept(g, rows + [y])
    decreases |g|
  {
    var n := |g|;
    if n - 1 == y {
      assert DeleteRow(g, y) == g[..n - 1];
      KeptSame(g[..n - 1], rows, rows + [y]);
    } else {
      var h := g[..n - 1];
      DeleteRowKept(h, rows, y);
      var d := DeleteRow(g, y);
      DeleteRowLast(g, y);
      assert n - 2 !in rows;
      assert Kept(d, rows) == Kept(DeleteRow(h, y), rows) + [g[n - 1]];
      assert n - 1 !in rows + [y];
      assert Kept(g, rows + [y]) == Kept(h, rows + [y]) + [g[n - 1]];
    }
  }

  /** Deleting a row below the last one leaves the last row last. */
  lemma DeleteRowLast<X>(g: seq<X>, y: int)
    requires 0 <= y < |g| - 1
    ensures var d := DeleteRow(g, y);
      d[..|d| - 1] == DeleteRow(g[..|g| - 1], y) && d[|d| - 1] == g[|g| - 1]
  {
    var d := DeleteRow(g, y);
    assert d[..|d| - 1] == DeleteRow(g[..|g| - 1], y);
  }

  /** Deleting ascending rows highest first keeps exactly the other rows, in order. */
  lemma {:induction false} DeleteRowsKept<X>(g: seq<X>, rows: seq<int>)
    requires StrictlyAscending(rows)
    requires forall i :: 0 <= i < |rows| ==> 0 <= rows[i] < |g|
    ensures DeleteRows(g, rows) == Kept(g, rows)
    decreases |rows|
  {
    if rows == [] {
      KeptNone(g);
    } else {
      var y := rows[|rows| - 1];
      var pre := rows[..|rows| - 1];
      DeleteRowsKept(DeleteRow(g, y), pre);
      DeleteRowKept(g, pre, y);
      assert pre + [y] == rows;
    }
  }

  /** The corrected removal deletes exactly the listed rows: the other rows keep their order
      and as many empty rows as were removed appear at the top. */
  lemma RemoveRowsExact(g: Grid, rows: seq<int>)
    requires WellFormed(g) && RowsInGrid(rows) && StrictlyAscending(rows)
    ensures RemoveRows(g, rows) == EmptyRows(|rows|) + Kept(g, rows)
  {
    DeleteRowsKept(g, rows);
  }

  lemma OneRowAsWritten(g: Grid, y: int)
    requires WellFormed(g) && 0 <= y < GridHeight
    ensures RemoveRowsAsWritten(g, [y]) == DropRowAt(g, y)
  {
    assert [y][..0] == [];
  }

  /** For a single row the code as written removes exactly that row: an empty row appears
      at the top and every other row keeps its order. */
  lemma SingleRowRemovalExact(g: Grid, y: int)
    requires WellFormed(g) && 0 <= y < GridHeight
    ensures RemoveRowsAsWritten(g, [y]) == [EmptyRow()] + Kept(g, [y])
  {
    OneRowAsWritten(g, y);
    DeleteRowKept(g, [], y);
    assert [] + [y] == [y];
    KeptNone(DeleteRow(g, y));
  }

  /** On a single row the code as written and the corrected removal agree. */
  lemma OneRowAgrees(g: Grid, y: int)
    requires WellFormed(g) && 0 <= y < GridHeight
    ensures RemoveRowsAsWritten(g, [y]) == RemoveRows(g, [y])
  {
    SingleRowRemovalExact(g, y);
    RemoveRowsExact(g, [y]);
    assert EmptyRows(1) == [EmptyRow()];
  }

  /** The code as written, asked to clear rows 18 and 19, deletes rows 19 and 17: after the
      first deletion original row 18 has moved to index 19 and row 17 to index 18. */
  lemma BottomTwoRowsAsWritten(g: Grid)
    requires WellFormed(g)
    ensures RemoveRowsAsWritten(g, [18, 19]) == [EmptyRow(), EmptyRow()] + g[..17] + [g[18]]
  {
    assert [18, 19][..1] == [18];
    assert [18][..0] == [];
    var g1 := DropRowAt(g, 19);
    assert g1 == [EmptyRow()] + g[..19];
    assert g1[..18] == [EmptyRow()] + g[..17];
    assert g1[19..] == [g[18]];
    var g2 := DropRowAt(g1, 18);
    assert RemoveRowsAsWritten(g, [18, 19]) == g2;
    assert g2 == [EmptyRow()] + ([EmptyRow()] + g[..17]) + [g[18]];
  }

  /** The intended removal of rows 18 and 19 leaves rows 0 .. 17 below two empty rows. */
  lemma BottomTwoRowsIntended(g: Grid)
    requires WellFormed(g)
    ensures RemoveRows(g, [18, 19]) == EmptyRows(2) + g[..18]
  {
    assert [18, 19][..1] == [18];
    assert [18][..0] == [];
    var d1 := DeleteRow(g, 19);
    assert DeleteRows(g, [18, 19]) == DeleteRows(d1, [18]);
    assert DeleteRows(d1, [18]) == DeleteRows(DeleteRow(d1, 18), []);
    assert DeleteRow(d1, 18) == g[..18];
  }

  function FullRow(): (row: seq<Cell>)
    ensures |row| == GridWidth && RowFull(row)
  {
    seq(GridWidth, _ => Block(Red))
  }

  /** The grid of the counterexample: rows 18 and 19 full, all others empty. */
  function BottomTwoFull(): (g: Grid)
    ensures WellFormed(g)
    ensures RowFull(g[18]) && RowFull(g[19]) && !RowFull(g[17])
    ensures FullRows(g) == [18, 19]
  {
    var g := seq(GridHeight, r requires 0 <= r < GridHeight => if r >= 18 then FullRow() else EmptyRow());
    assert forall y :: 0 <= y < GridHeight ==> g[y] == if y >= 18 then FullRow() else EmptyRow();
    assert WellFormed(g);
    assert forall y :: 0 <= y < GridHeight ==> (RowFull(g[y]) <==> y >= 18) by {
      forall y | 0 <= y < 18 ensures !RowFull(g[y]) {
        assert g[y][0] == Empty;
      }
    }
    OnlyBottomTwo(FullRows(g));
    g
  }

  /** An ascending list holding exactly 18 and 19 is [18, 19]. */
  lemma OnlyBottomTwo(rows: seq<int>)
    requires StrictlyAscending(rows)
    requires forall y :: y in rows <==> 18 <= y < 20
    ensures rows == [18, 19]
  {
    assert forall i :: 0 <= i < |rows| ==> 18 <= rows[i] < 20 by {
      forall i | 0 <= i < |rows| ensures 18 <= rows[i] < 20 {
        assert rows[i] in rows;
      }
    }
    AscendingBound(rows, 18, 20);
    assert 18 in rows && 19 in rows;
  }

  /** When rows 18 and 19 are the full rows (BottomTwoFull is such a grid), the code as
      written leaves a full row at the bottom, where the intended removal does not. */
  lemma TwoRowClearDeviates(g: Grid)
    requires WellFormed(g) && FullRows(g) == [18, 19]
    ensures RowFull(RemoveRowsAsWritten(g, FullRows(g))[19])
    ensures !RowFull(RemoveRows(g, FullRows(g))[19])
  {
    assert 17 !in FullRows(g);
    BottomTwoRowsAsWritten(g);
    BottomTwoRowsIntended(g);
    assert RemoveRowsAsWritten(g, [18, 19])[19] == g[18];
    assert RemoveRows(g, [18, 19])[19] == g[17];
  }

  /** The fixed wall-kick list of rotate_piece. */
  const Kicks: seq<(int, int)> := [(0, 0), (-1, 0), (1, 0), (0, -1), (-1, -1), (1, -1)]

  /** The index of the first offset in `kicks`, from index i on, at which p fits, if any. */
  function FirstFitFrom(g: Grid, p: Piece, kicks: seq<(int, int)>, i: nat): (r: Option<nat>)
    requires WellFormed(g) && i <= |kicks|
    ensures r.Some? ==> i <= r.value < |kicks| && Fits(g, p, kicks[r.value].0, kicks[r.value].1)
    ensures r.Some? ==> forall j :: i <= j < r.value ==> !Fits(g, p, kicks[j].0, kicks[j].1)
    ensures r.None? <==> forall j :: i <= j < |kicks| ==> !Fits(g, p, kicks[j].0, kicks[j].1)
    decreases |kicks| - i
  {
    if i == |kicks| then None
    else if Fits(g, p, kicks[i].0, kicks[i].1) then Some(i)
    else FirstFitFrom(g, p, kicks, i + 1)
  }

  /** The index of the first offset in `kicks` at which p fits, if any. */
  function FirstFit(g: Grid, p: Piece, kicks: seq<(int, int)>): (r: Option<nat>)
    requires WellFormed(g)
    ensures r.Some? ==> r.value < |kicks| && Fits(g, p, kicks[r.value].0, kicks[r.value].1)
    ensures r.Some? ==> forall j :: 0 <= j < r.value ==> !Fits(g, p, kicks[j].0, kicks[j].1)
    ensures r.None? <==> forall j :: 0 <= j < |kicks| ==> !Fits(g, p, kicks[j].0, kicks[j].1)
  {
    FirstFitFrom(g, p, kicks, 0)
  }

  /** How far p can fall from offset d: the first e >= d at which moving one more row down
      does not fit. */
  function DropFrom(g: Grid, p: Piece, d: nat): (e: nat)
    requires WellFormed(g) && HasBlock(p.shape)
    ensures d <= e && !Fits(g, p, 0, e + 1)
    ensures forall k :: d < k <= e ==> Fits(g, p, 0, k)
    decreases GridHeight - (p.y + d)
  {
    if Fits(g, p, 0, d + 1) then
      FitsAboveFloor(g, p, 0, d + 1);
      DropFrom(g, p, d + 1)
    else d
  }

  /** The number of rows hard_drop and get_ghost_piece move the piece down. */
  function DropDistance(g: Grid, p: Piece): (d: nat)
    requires WellFormed(g) && HasBlock(p.shape)
    ensures !Fits(g, p, 0, d + 1)
    ensures forall k :: 0 < k <= d ==> Fits(g, p, 0, k)
  {
    DropFrom(g, p, 0)
  }

  /** Below the landing offset the piece can still move down one more row; at it, it cannot. */
  lemma DropDistanceStep(g: Grid, p: Piece, d: nat)
    requires WellFormed(g) && HasBlock(p.shape) && d <= DropDistance(g, p)
    ensures Fits(g, p, 0, d + 1) <==> d < DropDistance(g, p)
  {
    var below := Fits(g, p, 0, d + 1);
    assert d < DropDistance(g, p) ==> below;
  }

  /** The same test, made on the piece already moved down by d rows. */
  lemma DropStepMoved(g: Grid, p: Piece, d: nat)
    requires WellFormed(g) && HasBlock(p.shape) && d <= DropDistance(g, p)
    ensures Fits(g, p.(y := p.y + d), 0, 1) <==> d < DropDistance(g, p)
  {
    FitsShift(g, p, 0, d);
    assert p.(x := p.x + 0, y := p.y + d) == p.(y := p.y + d);
    DropDistanceStep(g, p, d);
  }

}

/** A falling piece (src/utils/Pieces.ts): a shape matrix at an anchor, a
    stack of saved (shape, anchor) snapshots for undo, and a control log. */
module Pieces {
  import opened Types
  import opened Results
  import opened Matrices

  /** Default anchor of every new piece (the `_xAxis` / `_yAxis` initialisers). */
  const SpawnX: int := 4
  const SpawnY: int := 0

  /** The capacity the history trim compares against. */
  const HistoryCap: nat := 10

  datatype Piece = Piece(
    kind: Kind,
    matrix: Matrix,
    x: int,                      // column of the matrix's left edge
    y: int,                      // row of the matrix's top edge
    history: seq<Snapshot>,      // oldest first; the last entry is popped first
    controls: seq<ControlRecord> // oldest first
  )

  // ---------------------------------------------------------------- shapes

  /** The shape table of the I/J/L/O/S/T/Z piece classes. */
  function Shape(k: Kind): Matrix {
    match k
    case I => [[0, 1, 0, 0], [0, 1, 0, 0], [0, 1, 0, 0], [0, 1, 0, 0]]
    case J => [[0, 1, 0], [0, 1, 0], [1, 1, 0]]
    case L => [[0, 1, 0], [0, 1, 0], [0, 1, 1]]
    case O => [[1, 1], [1, 1]]
    case S => [[0, 1, 1], [1, 1, 0], [0, 0, 0]]
    case T => [[0, 1, 0], [1, 1, 1], [0, 0, 0]]
    case Z => [[1, 1, 0], [0, 1, 1], [0, 0, 0]]
  }

  /** The PieceMap key under which each kind's class is registered. */
  function KindIndex(k: Kind): nat {
    match k
    case I => 0
    case J => 1
    case L => 2
    case O => 3
    case S => 4
    case T => 5
    case Z => 6
  }

  /** `new X_Piece()`: the kind's shape at the default anchor, with empty logs. */
  function NewPiece(k: Kind): Piece {
    Piece(k, Shape(k), SpawnX, SpawnY, [], [])
  }

  /** Every shape has exactly four filled cells. */
  lemma ShapeFilledCount(k: Kind)
    ensures FilledCount(Shape(k)) == 4
  {
    var m := Shape(k);
    match k
    case I =>
      assert FilledCount(m[3..]) == 1;
      assert FilledCount(m[2..]) == 2;
      assert FilledCount(m[1..]) == 3;
    case J =>
      assert FilledCount(m[2..]) == 2;
      assert FilledCount(m[1..]) == 3;
    case L =>
      assert FilledCount(m[2..]) == 2;
      assert FilledCount(m[1..]) == 3;
    case O =>
      assert FilledCount(m[1..]) == 2;
    case S =>
      assert FilledCount(m[2..]) == 0;
      assert FilledCount(m[1..]) == 2;
    case T =>
      assert FilledCount(m[2..]) == 0;
      assert FilledCount(m[1..]) == 3;
    case Z =>
      assert FilledCount(m[2..]) == 0;
      assert FilledCount(m[1..]) == 2;
  }

  /** Every playable shape is a square matrix with exactly four filled cells,
      and every new piece starts at anchor (4, 0) with empty logs. */
  lemma ShapesAreTetrominoes(k: Kind)
    ensures IsMatrix(Shape(k)) && |Shape(k)[0]| == |Shape(k)| && 2 <= |Shape(k)| <= 4
    ensures FilledCount(Shape(k)) == 4
    ensures var p := NewPiece(k); p.x == 4 && p.y == 0 && p.history == [] && p.controls == []
  {
    ShapeFilledCount(k);
  }

  // ------------------------------------------------------------ projection

  /** Board cell `a` comes before `b` in row-major order. */
  predicate Before(a: Cell, b: Cell) {
    a.row < b.row || (a.row == b.row && a.col < b.col)
  }

  /** Strictly increasing in row-major order, hence free of repetitions. */
  predicate RowMajor(cs: seq<Cell>) {
    forall a, b :: 0 <= a < b < |cs| ==> Before(cs[a], cs[b])
  }

  /** The cells of one matrix row, from column `j` on, whose filled-ness is
      `filled`, placed on board row `r` with the matrix's left edge at `x`. */
  function RowCells(row: seq<int>, j: nat, r: int, x: int, filled: bool): seq<Cell>
    requires j <= |row|
    decreases |row| - j
  {
    if j == |row| then []
    else (if (row[j] != 0) == filled then [Cell(r, x + j)] else []) + RowCells(row, j + 1, r, x, filled)
  }

  /** A cell is listed exactly when it lies on row `r`, from column `x + j`
      to the row's end, with the wanted filled-ness. */
  lemma {:induction false} RowCellsMembers(row: seq<int>, j: nat, r: int, x: int, filled: bool)
    requires j <= |row|
    ensures forall c :: c in RowCells(row, j, r, x, filled) <==>
      c.row == r && x + j <= c.col < x + |row| && (row[c.col - x] != 0) == filled
    decreases |row| - j
  {
    if j < |row| {
      RowCellsMembers(row, j + 1, r, x, filled);
    }
  }

  /** The listed cells are on row `r`, left to right. */
  lemma {:induction false} RowCellsOrder(row: seq<int>, j: nat, r: int, x: int, filled: bool)
    requires j <= |row|
    ensures forall a, b :: 0 <= a < b < |RowCells(row, j, r, x, filled)| ==>
      RowCells(row, j, r, x, filled)[a].row == r && RowCells(row, j, r, x, filled)[a].col < RowCells(row, j, r, x, filled)[b].col
    decreases |row| - j
  {
    if j < |row| {
      var rest := RowCells(row, j + 1, r, x, filled);
      var here: seq<Cell> := if (row[j] != 0) == filled then [Cell(r, x + j)] else [];
      var cs := RowCells(row, j, r, x, filled);
      assert cs == here + rest;
      RowCellsOrder(row, j + 1, r, x, filled);
      RowCellsMembers(row, j + 1, r, x, filled);
      forall a, b | 0 <= a < b < |cs|
        ensures cs[a].row == r && cs[a].col < cs[b].col
      {
        assert cs[b] == rest[b - |here|] && cs[b] in rest;
        if a < |here| {
          assert cs[a] == Cell(r, x + j);
        } else {
          assert cs[a] == rest[a - |here|];
        }
      }
      assert cs == RowCells(row, j, r, x, filled);
    } else {
      assert RowCells(row, j, r, x, filled) == [];
    }
  }

  /** The cells of matrix rows `i..` whose filled-ness is `filled`, with the
      matrix's top-left corner at board cell (y, x), row by row. */
  function MatrixCells(m: Matrix, i: nat, x: int, y: int, filled: bool): seq<Cell>
    requires i <= |m|
    decreases |m| - i
  {
    if i == |m| then []
    else RowCells(m[i], 0, y + i, x, filled) + MatrixCells(m, i + 1, x, y, filled)
  }

  /** A cell is listed exactly when it lies under matrix rows `i..` at an
      entry of the wanted filled-ness. */
  lemma {:induction false} MatrixCellsMembers(m: Matrix, i: nat, x: int, y: int, filled: bool)
    requires i <= |m|
    ensures forall c :: c in MatrixCells(m, i, x, y, filled) <==>
      && y + i <= c.row < y + |m|
      && x <= c.col < x + |m[c.row - y]|
      && (m[c.row - y][c.col - x] != 0) == filled
    decreases |m| - i
  {
    if i < |m| {
      RowCellsMembers(m[i], 0, y + i, x, filled);
      MatrixCellsMembers(m, i + 1, x, y, filled);
    }
  }

  /** The listed cells come in row-major order. */
  lemma {:induction false} MatrixCellsOrder(m: Matrix, i: nat, x: int, y: int, filled: bool)
    requires i <= |m|
    ensures RowMajor(MatrixCells(m, i, x, y, filled))
    decreases |m| - i
  {
    if i < |m| {
      var here := RowCells(m[i], 0, y + i, x, filled);
      var rest := MatrixCells(m, i + 1, x, y, filled);
      var cs := MatrixCells(m, i, x, y, filled);
      assert cs == here + rest;
      RowCellsMembers(m[i], 0, y + i, x, filled);
      RowCellsOrder(m[i], 0, y + i, x, filled);
      MatrixCellsMembers(m, i + 1, x, y, filled);
      MatrixCellsOrder(m, i + 1, x, y, filled);
      forall a, b | 0 <= a < b < |cs|
        ensures Before(cs[a], cs[b])
      {
        if b < |here| {
          assert cs[a] == here[a] && cs[b] == here[b];
        } else if a < |here| {
          assert cs[a] == here[a] && here[a] in here;
          assert cs[b] == rest[b - |here|] && cs[b] in rest;
        } else {
          assert cs[a] == rest[a - |here|] && cs[b] == rest[b - |here|];
        }
      }
    }
  }

  /** Membership and row-major order of the projection of rows `i..`. */
  lemma MatrixCellsSpec(m: Matrix, i: nat, x: int, y: int, filled: bool)
    requires i <= |m|
    ensures forall c :: c in MatrixCells(m, i, x, y, filled) <==>
      && y + i <= c.row < y + |m|
      && x <= c.col < x + |m[c.row - y]|
      && (m[c.row - y][c.col - x] != 0) == filled
    ensures RowMajor(MatrixCells(m, i, x, y, filled))
  {
    MatrixCellsMembers(m, i, x, y, filled);
    MatrixCellsOrder(m, i, x, y, filled);
  }

  /** The getter `coordinates`: the board cells of the filled matrix entries. */
  function Coordinates(p: Piece): seq<Cell> {
    MatrixCells(p.matrix, 0, p.x, p.y, true)
  }

  /** The getter `coordinateOfEmptyMatrix`: the board cells of the empty entries. */
  function CoordinateOfEmptyMatrix(p: Piece): seq<Cell> {
    MatrixCells(p.matrix, 0, p.x, p.y, false)
  }

  /** Board cell `c` lies under the piece's matrix. */
  predicate InBox(p: Piece, c: Cell) {
    && p.y <= c.row < p.y + |p.matrix|
    && p.x <= c.col < p.x + |p.matrix[c.row - p.y]|
  }

  /** `coordinates` lists exactly the filled entries, offset by the anchor,
      in row-major order. */
  lemma CoordinatesAreFilledCells(p: Piece)
    ensures forall c :: c in Coordinates(p) <==> InBox(p, c) && p.matrix[c.row - p.y][c.col - p.x] != 0
    ensures forall i, j :: 0 <= i < |p.matrix| && 0 <= j < |p.matrix[i]| && p.matrix[i][j] != 0 ==>
      Cell(i + p.y, j + p.x) in Coordinates(p)
    ensures RowMajor(Coordinates(p))
  {
    var cs := Coordinates(p);
    assert forall c :: c in cs <==> InBox(p, c) && p.matrix[c.row - p.y][c.col - p.x] != 0 by {
      MatrixCellsSpec(p.matrix, 0, p.x, p.y, true);
    }
    forall i, j | 0 <= i < |p.matrix| && 0 <= j < |p.matrix[i]| && p.matrix[i][j] != 0
      ensures Cell(i + p.y, j + p.x) in cs
    {
      var c := Cell(i + p.y, j + p.x);
      assert c.row - p.y == i && c.col - p.x == j;
      assert InBox(p, c);
    }
    assert RowMajor(cs) by {
      MatrixCellsSpec(p.matrix, 0, p.x, p.y, true);
    }
  }

  /** The filled and empty projections are disjoint and together cover the
      piece's box. */
  lemma CoordinatesPartitionBox(p: Piece)
    ensures forall c :: InBox(p, c) <==> c in Coordinates(p) || c in CoordinateOfEmptyMatrix(p)
    ensures forall c :: !(c in Coordinates(p) && c in CoordinateOfEmptyMatrix(p))
  {
    MatrixCellsSpec(p.matrix, 0, p.x, p.y, true);
    MatrixCellsSpec(p.matrix, 0, p.x, p.y, false);
  }

  lemma {:induction false} RowCellsCount(row: seq<int>, j: nat, r: int, x: int)
    requires j <= |row|
    ensures |RowCells(row, j, r, x, true)| == RowCount(row[j..])
    ensures |RowCells(row, j, r, x, false)| == |row| - j - RowCount(row[j..])
    decreases |row| - j
  {
    if j < |row| {
      assert row[j..][1..] == row[j + 1..];
      RowCellsCount(row, j + 1, r, x);
    }
  }

  lemma {:induction false} MatrixCellsCount(m: Matrix, c: nat, i: nat, x: int, y: int)
    requires i <= |m| && HasWidth(m, c)
    ensures |MatrixCells(m, i, x, y, true)| == FilledCount(m[i..])
    ensures |MatrixCells(m, i, x, y, false)| == (|m| - i) * c - FilledCount(m[i..])
    decreases |m| - i
  {
    if i < |m| {
      var n, e := |MatrixCells(m, i, x, y, true)|, |MatrixCells(m, i, x, y, false)|;
      var n', e' := |MatrixCells(m, i + 1, x, y, true)|, |MatrixCells(m, i + 1, x, y, false)|;
      var k, k' := FilledCount(m[i..]), FilledCount(m[i + 1..]);
      var rc := RowCount(m[i]);
      assert n == rc + n' && e == (c - rc) + e' by {
        assert MatrixCells(m, i, x, y, true) == RowCells(m[i], 0, y + i, x, true) + MatrixCells(m, i + 1, x, y, true);
        assert MatrixCells(m, i, x, y, false) == RowCells(m[i], 0, y + i, x, false) + MatrixCells(m, i + 1, x, y, false);
        RowCellsCount(m[i], 0, y + i, x);
        assert m[i][0..] == m[i];
      }
      assert k == rc + k' by {
        assert m[i..][1..] == m[i + 1..];
      }
      assert n' == k' && e' == (|m| - (i + 1)) * c - k' by {
        MatrixCellsCount(m, c, i + 1, x, y);
      }
      MulStep(|m| - i, c);
    } else {
      assert m[i..] == [];
    }
  }

  lemma MulStep(n: nat, c: nat)
    requires n > 0
    ensures n * c == c + (n - 1) * c
  {
  }

  /** There are as many coordinates as filled entries, and the two
      projections together have exactly rows × columns cells. */
  lemma CoordinateCounts(p: Piece)
    requires IsMatrix(p.matrix)
    ensures |Coordinates(p)| == FilledCount(p.matrix)
    ensures |Coordinates(p)| + |CoordinateOfEmptyMatrix(p)| == |p.matrix| * |p.matrix[0]|
  {
    MatrixCellsCount(p.matrix, |p.matrix[0]|, 0, p.x, p.y);
    assert p.matrix[0..] == p.matrix;
  }

  /** The projection depends only on the shape and the anchor: moving the
      anchor by (dy, dx) moves every coordinate by (dy, dx). */
  lemma CoordinatesShift(p: Piece, q: Piece)
    requires q.matrix == p.matrix
    ensures forall c :: c in Coordinates(q) <==> Cell(c.row - (q.y - p.y), c.col - (q.x - p.x)) in Coordinates(p)
  {
    MatrixCellsSpec(p.matrix, 0, p.x, p.y, true);
    MatrixCellsSpec(q.matrix, 0, q.x, q.y, true);
  }

  // --------------------------------------------------------------- history

  /** `Array.prototype.unshift()` with no items inserts nothing. */
  function UnshiftNothing<A>(s: seq<A>): seq<A> {
    s
  }

  /** A push followed by the source's trim `if (length > 10) unshift()`:
      the trim removes nothing, so the log only grows. */
  function Push<A>(s: seq<A>, e: A): (r: seq<A>)
    ensures r == s + [e]
  {
    var pushed := s + [e];
    if |pushed| > HistoryCap then UnshiftNothing(pushed) else pushed
  }

  /** `_saveControlHistory(c)` then `_saveCoordinatesHistory()`. */
  function Save(p: Piece, c: Control): (r: Piece)
    ensures r.kind == p.kind && r.matrix == p.matrix && r.x == p.x && r.y == p.y
    ensures r.history == p.history + [Snapshot(p.matrix, p.x, p.y)]
    ensures r.controls == p.controls + [ControlRecord(c, p.kind)]
  {
    p.(controls := Push(p.controls, ControlRecord(c, p.kind)),
       history := Push(p.history, Snapshot(p.matrix, p.x, p.y)))
  }

  /** `rotate()`: a quarter turn of the shape; the anchor stays. */
  function RotatePiece(p: Piece): (r: Piece)
    requires IsMatrix(p.matrix)
    ensures r.x == p.x && r.y == p.y && r.kind == p.kind
    ensures IsMatrix(r.matrix) && FilledCount(r.matrix) == FilledCount(p.matrix)
    ensures |r.history| == |p.history| + 1 && |r.controls| == |p.controls| + 1
  {
    RotateKeepsCount(p.matrix);
    Save(p, Rotate).(matrix := RotateMatrix(p.matrix))
  }

  /** `moveRight()`: one column to the right; the shape stays. */
  function MoveRight(p: Piece): (r: Piece)
    ensures r.x == p.x + 1 && r.y == p.y && r.matrix == p.matrix && r.kind == p.kind
    ensures |r.history| == |p.history| + 1 && |r.controls| == |p.controls| + 1
  {
    Save(p, Right).(x := p.x + 1)
  }

  /** `moveLeft()`: one column to the left; the shape stays. */
  function MoveLeft(p: Piece): (r: Piece)
    ensures r.x == p.x - 1 && r.y == p.y && r.matrix == p.matrix && r.kind == p.kind
    ensures |r.history| == |p.history| + 1 && |r.controls| == |p.controls| + 1
  {
    Save(p, Left).(x := p.x - 1)
  }

  /** `moveDown()`: one row down; the shape stays. */
  function MoveDown(p: Piece): (r: Piece)
    ensures r.y == p.y + 1 && r.x == p.x && r.matrix == p.matrix && r.kind == p.kind
    ensures |r.history| == |p.history| + 1 && |r.controls| == |p.controls| + 1
  {
    Save(p, Down).(y := p.y + 1)
  }

  /** The mutating operation a control names. */
  function Apply(p: Piece, c: Control): Piece
    requires c == Rotate ==> IsMatrix(p.matrix)
  {
    match c
    case Left => MoveLeft(p)
    case Right => MoveRight(p)
    case Rotate => RotatePiece(p)
    case Down => MoveDown(p)
  }

  /** `restoreHistory()`: pop the newest snapshot back into shape and anchor;
      fails when there is none. The control log is left as it is. */
  function RestoreHistory(p: Piece): (r: Result<Piece>)
    ensures r.Fail? <==> |p.history| == 0
    ensures r.Fail? ==> r.fault == EmptyHistory
    ensures r.Ok? ==>
      && r.value.kind == p.kind && r.value.controls == p.controls
      && r.value.history == p.history[..|p.history| - 1]
      && Snapshot(r.value.matrix, r.value.x, r.value.y) == p.history[|p.history| - 1]
  {
    if |p.history| == 0 then Fail(EmptyHistory)
    else
      var last := p.history[|p.history| - 1];
      Ok(p.(matrix := last.matrix, x := last.x, y := last.y, history := p.history[..|p.history| - 1]))
  }

  /** Restoring right after any single mutating operation gives back the
      exact prior shape, anchor and history; only the control log keeps the
      operation's entry. */
  lemma RestoreUndoesApply(p: Piece, c: Control)
    requires c == Rotate ==> IsMatrix(p.matrix)
    ensures RestoreHistory(Apply(p, c)) == Ok(p.(controls := p.controls + [ControlRecord(c, p.kind)]))
  {
    var q := Apply(p, c);
    assert q.history == p.history + [Snapshot(p.matrix, p.x, p.y)];
    assert q.history[..|q.history| - 1] == p.history;
  }

  /** Each mutating operation saves exactly one snapshot (of the state before
      it) and one control entry, and the history never shrinks. */
  lemma ApplyRecordsOnce(p: Piece, c: Control)
    requires c == Rotate ==> IsMatrix(p.matrix)
    ensures Apply(p, c).history == p.history + [Snapshot(p.matrix, p.x, p.y)]
    ensures Apply(p, c).controls == p.controls + [ControlRecord(c, p.kind)]
  {
  }

  /** `moveAxisByNumber(axis, n)`: subtract `n` from one anchor coordinate
      without recording anything. */
  function MoveAxisByNumber(p: Piece, axis: Axis, n: int): (r: Piece)
    ensures r.matrix == p.matrix && r.kind == p.kind && r.history == p.history && r.controls == p.controls
    ensures axis == XAxis ==> r.x == p.x - n && r.y == p.y
    ensures axis == YAxis ==> r.y == p.y - n && r.x == p.x
  {
    if axis == XAxis then p.(x := p.x - n) else p.(y := p.y - n)
  }
}

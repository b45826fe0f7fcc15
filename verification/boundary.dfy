/** The corrective shift the out-of-range test is designed for: the amount
    `checkPieceIsOutRange` stores is exactly the `moveAxisByNumber` argument
    that brings the piece back inside on that side. */
module Boundary {
  import opened Types
  import opened Pieces
  import opened Places

  /** The anchor coordinate a side's amount is measured along. */
  function AxisOf(side: CollideType): Axis {
    if side == BottomBorder then YAxis else XAxis
  }

  /** The cell that sits `n` further along the side's axis: the cell of the
      unshifted piece that moves onto `c`. */
  function Back(c: Cell, side: CollideType, n: int): Cell {
    if side == BottomBorder then Cell(c.row + n, c.col) else Cell(c.row, c.col + n)
  }

  /** The cells of the shifted piece are the piece's cells moved back by `n`. */
  lemma ShiftedCoordinates(p: Piece, side: CollideType, n: int)
    ensures forall c :: c in Coordinates(MoveAxisByNumber(p, AxisOf(side), n)) <==> Back(c, side, n) in Coordinates(p)
  {
    var q := MoveAxisByNumber(p, AxisOf(side), n);
    CoordinatesShift(p, q);
    forall c ensures Back(c, side, n) == Cell(c.row - (q.y - p.y), c.col - (q.x - p.x)) {
    }
  }

  /** Moving a set of cells back by the stored amount brings every cell inside
      the side and one of them onto its edge. */
  lemma ShiftedCellsInside(cells: seq<Cell>, shifted: set<Cell>, side: CollideType, w: int, h: int)
    requires GetPieceBorderInfo(cells, side, w, h).isOut
    requires forall c :: c in shifted <==> Back(c, side, GetPieceBorderInfo(cells, side, w, h).outRangeLength) in cells
    ensures forall c :: c in shifted ==> !Violates(c, side, w, h)
    ensures exists c :: c in shifted && Measure(c, side) == Edge(side, w, h)
  {
    var info := GetPieceBorderInfo(cells, side, w, h);
    var n := info.outRangeLength;
    var e := Edge(side, w, h);
    forall c | c in shifted
      ensures !Violates(c, side, w, h)
    {
      var d := Back(c, side, n);
      var k :| 0 <= k < |cells| && cells[k] == d;
      assert Measure(c, side) == Measure(d, side) - n;
    }
    var k :| 0 <= k < |cells| && Measure(cells[k], side) - e == n;
    var d := cells[k];
    var c := if side == BottomBorder then Cell(d.row - n, d.col) else Cell(d.row, d.col - n);
    assert Back(c, side, n) == d;
    assert Measure(c, side) == e;
  }

  /** When some cell of the piece is past a side, shifting the piece by the
      stored amount along that side's axis leaves no cell past it, and the
      farthest cell then lies exactly on the edge (column 0, column w - 1 or
      row h - 1). */
  lemma CorrectionLandsOnBorder(p: Piece, pl: Place, side: CollideType)
    ensures var (pl', out) := CheckPieceIsOutRange(pl, Coordinates(p), side);
      out ==>
        var q := MoveAxisByNumber(p, AxisOf(side), pl'.outRangeLength);
        && (forall c :: c in Coordinates(q) ==> !Violates(c, side, pl.width, pl.height))
        && (exists c :: c in Coordinates(q) && Measure(c, side) == Edge(side, pl.width, pl.height))
  {
    var cells := Coordinates(p);
    var info := GetPieceBorderInfo(cells, side, pl.width, pl.height);
    if info.isOut {
      var n := info.outRangeLength;
      var q := MoveAxisByNumber(p, AxisOf(side), n);
      ShiftedCoordinates(p, side, n);
      var shifted := set c | c in Coordinates(q);
      ShiftedCellsInside(cells, shifted, side, pl.width, pl.height);
    }
  }
}

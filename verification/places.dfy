/** The board of `Place` (src/utils/Place.ts): a static grid of locked cells,
    a rendered grid that overlays the moving piece on it, the list of full
    rows awaiting removal, the score, and the overflow amount of the last
    out-of-range test. Every mutator of the class becomes a function from
    the old board to the new one. */
module Places {
  import opened Types
  import opened Results
  import opened Rows
  import opened Scoring

  datatype Place = Place(
    width: nat,
    height: nat,
    staticPlace: Grid,
    rendered: Grid,
    lineIndexes: seq<nat>,
    score: int,
    lineCount: int,
    outRangeLength: int)

  /** `g` has `h` rows of `w` cells each. */
  predicate IsGrid(g: Grid, h: nat, w: nat) {
    |g| == h && forall r :: 0 <= r < |g| ==> |g[r]| == w
  }

  predicate Wf(pl: Place) {
    IsGrid(pl.staticPlace, pl.height, pl.width) && IsGrid(pl.rendered, pl.height, pl.width)
  }

  /** The constructor: both grids all zero, nothing listed, no score. */
  function NewPlace(h: nat, w: nat): (r: Place)
    ensures Wf(r) && r.height == h && r.width == w
    ensures forall i, j :: 0 <= i < h && 0 <= j < w ==> r.staticPlace[i][j] == 0 && r.rendered[i][j] == 0
    ensures r.lineIndexes == [] && r.score == 0 && r.lineCount == 0 && r.outRangeLength == 0
  {
    Place(w, h, ZeroRows(h, w), ZeroRows(h, w), [], 0, 0, 0)
  }

  // ------------------------------------------------------------ writing cells

  /** Cell `c` names an existing entry of `g`. */
  predicate InGrid(g: Grid, c: Cell) {
    0 <= c.row < |g| && 0 <= c.col < |g[c.row]|
  }

  /** `g[y][x] = code` for a row that exists. A column outside the row is
      not stored (see README, "Left out"). */
  function Write(g: Grid, c: Cell, code: int): Grid
    requires 0 <= c.row < |g|
  {
    if 0 <= c.col < |g[c.row]| then g[c.row := g[c.row][c.col := code]] else g
  }

  /** The `forEach(([y, x]) => g[y][x] = code)` of `renderPlace` and
      `setMovingPieceStatic`: a row index the grid lacks makes `g[y]`
      undefined and the write raises a TypeError. */
  function Paint(g: Grid, cells: seq<Cell>, code: int): Result<Grid>
    decreases |cells|
  {
    if |cells| == 0 then Ok(g)
    else if !(0 <= cells[0].row < |g|) then Fail(MissingRow)
    else Paint(Write(g, cells[0], code), cells[1..], code)
  }

  /** `r` is `g` with `code` at every listed cell and nothing else changed. */
  predicate Painted(r: Grid, g: Grid, cells: seq<Cell>, code: int) {
    && |r| == |g|
    && (forall i :: 0 <= i < |g| ==> |r[i]| == |g[i]|)
    && (forall i, j :: 0 <= i < |g| && 0 <= j < |g[i]| ==>
          r[i][j] == (if Cell(i, j) in cells then code else g[i][j]))
  }

  /** Every listed row exists. */
  predicate RowsPresent(g: Grid, cells: seq<Cell>) {
    forall k :: 0 <= k < |cells| ==> 0 <= cells[k].row < |g|
  }

  lemma {:induction false} PaintSpec(g: Grid, cells: seq<Cell>, code: int)
    ensures Paint(g, cells, code).Ok? <==> RowsPresent(g, cells)
    ensures Paint(g, cells, code).Fail? ==> Paint(g, cells, code).fault == MissingRow
    ensures Paint(g, cells, code).Ok? ==> Painted(Paint(g, cells, code).value, g, cells, code)
    decreases |cells|
  {
    if |cells| > 0 && 0 <= cells[0].row < |g| {
      var c, rest := cells[0], cells[1..];
      var g1 := Write(g, c, code);
      PaintSpec(g1, rest, code);
      assert RowsPresent(g, cells) <==> RowsPresent(g1, rest) by {
        assert forall k :: 1 <= k < |cells| ==> cells[k] == rest[k - 1];
      }
      assert forall d :: d in cells <==> d == c || d in rest;
    }
  }

  /** `renderPlace`: the rendered grid becomes a copy of the static grid with
      `pieceCode` at every given cell; the static grid and the rest of the
      board stay as they were. */
  function RenderPlace(pl: Place, cells: seq<Cell>, code: int): (r: Result<Place>)
    ensures r.Ok? <==> RowsPresent(pl.staticPlace, cells)
    ensures r.Fail? ==> r.fault == MissingRow
    ensures r.Ok? ==> r.value == pl.(rendered := r.value.rendered)
    ensures r.Ok? ==> Painted(r.value.rendered, pl.staticPlace, cells, code)
  {
    PaintSpec(pl.staticPlace, cells, code);
    match Paint(pl.staticPlace, cells, code)
    case Ok(g) => Ok(pl.(rendered := g))
    case Fail(f) => Fail(f)
  }

  /** `setMovingPieceStatic`: writes `pieceCode` at the given cells of the
      static grid only. */
  function SetMovingPieceStatic(pl: Place, cells: seq<Cell>, code: int): (r: Result<Place>)
    ensures r.Ok? <==> RowsPresent(pl.staticPlace, cells)
    ensures r.Fail? ==> r.fault == MissingRow
    ensures r.Ok? ==> r.value == pl.(staticPlace := r.value.staticPlace)
    ensures r.Ok? ==> Painted(r.value.staticPlace, pl.staticPlace, cells, code)
  {
    PaintSpec(pl.staticPlace, cells, code);
    match Paint(pl.staticPlace, cells, code)
    case Ok(g) => Ok(pl.(staticPlace := g))
    case Fail(f) => Fail(f)
  }

  // ------------------------------------------------------------ collision

  /** `g[y] && g[y][x] > 20`: an existing entry holding a locked code. */
  predicate Hits(g: Grid, c: Cell) {
    InGrid(g, c) && g[c.row][c.col] > LockedAbove
  }

  /** The `forEach` of `checkIsPiecesCollide` over a grid. */
  function AnyLocked(g: Grid, cells: seq<Cell>): bool
    decreases |cells|
  {
    |cells| > 0 && (Hits(g, cells[0]) || AnyLocked(g, cells[1..]))
  }

  lemma {:induction false} AnyLockedSpec(g: Grid, cells: seq<Cell>)
    ensures AnyLocked(g, cells) <==> exists k :: 0 <= k < |cells| && Hits(g, cells[k])
    decreases |cells|
  {
    if |cells| > 0 {
      AnyLockedSpec(g, cells[1..]);
      if AnyLocked(g, cells[1..]) {
        var k :| 0 <= k < |cells[1..]| && Hits(g, cells[1..][k]);
        assert Hits(g, cells[k + 1]);
      }
      if exists k :: 0 <= k < |cells| && Hits(g, cells[k]) {
        var k :| 0 <= k < |cells| && Hits(g, cells[k]);
        if k > 0 {
          assert Hits(g, cells[1..][k - 1]);
        }
      }
    }
  }

  /** `checkIsPiecesCollide`: true exactly when some given cell lies on the
      rendered grid and holds a code above 20; cells off the grid never
      collide. */
  function CheckIsPiecesCollide(pl: Place, cells: seq<Cell>): (r: bool)
    ensures r <==> exists k :: 0 <= k < |cells| && Hits(pl.rendered, cells[k])
  {
    AnyLockedSpec(pl.rendered, cells);
    AnyLocked(pl.rendered, cells)
  }

  // ------------------------------------------------------------ out of range

  /** The comparison each side of `_getPieceBorderInfo` makes. */
  predicate Violates(c: Cell, side: CollideType, w: int, h: int) {
    match side
    case LeftBorder => c.col < 0
    case RightBorder => c.col > w - 1
    case BottomBorder => c.row > h - 1
  }

  /** The coordinate each side pushes: the column for left and right, the row
      for bottom. */
  function Measure(c: Cell, side: CollideType): int {
    if side == BottomBorder then c.row else c.col
  }

  /** `outRangeLengthList`: the measures of the violating cells, in order. */
  function OutList(cells: seq<Cell>, side: CollideType, w: int, h: int): seq<int>
    decreases |cells|
  {
    if |cells| == 0 then []
    else
      var here := if Violates(cells[0], side, w, h) then [Measure(cells[0], side)] else [];
      here + OutList(cells[1..], side, w, h)
  }

  lemma {:induction false} OutListSpec(cells: seq<Cell>, side: CollideType, w: int, h: int)
    ensures forall v :: v in OutList(cells, side, w, h) <==>
      exists k :: 0 <= k < |cells| && Violates(cells[k], side, w, h) && Measure(cells[k], side) == v
    decreases |cells|
  {
    if |cells| > 0 {
      OutListSpec(cells[1..], side, w, h);
      forall v | v in OutList(cells, side, w, h)
        ensures exists k :: 0 <= k < |cells| && Violates(cells[k], side, w, h) && Measure(cells[k], side) == v
      {
        if v !in OutList(cells[1..], side, w, h) {
          assert Violates(cells[0], side, w, h) && Measure(cells[0], side) == v;
        } else {
          var k :| 0 <= k < |cells[1..]| && Violates(cells[1..][k], side, w, h) && Measure(cells[1..][k], side) == v;
          assert cells[1..][k] == cells[k + 1];
        }
      }
      forall v, k | 0 <= k < |cells| && Violates(cells[k], side, w, h) && Measure(cells[k], side) == v
        ensures v in OutList(cells, side, w, h)
      {
        if k > 0 {
          assert cells[1..][k - 1] == cells[k];
        }
      }
    }
  }

  lemma {:induction false} OutListEmpty(cells: seq<Cell>, side: CollideType, w: int, h: int)
    ensures |OutList(cells, side, w, h)| == 0 <==> forall k :: 0 <= k < |cells| ==> !Violates(cells[k], side, w, h)
    decreases |cells|
  {
    if |cells| > 0 {
      OutListEmpty(cells[1..], side, w, h);
      assert forall k :: 1 <= k < |cells| ==> cells[k] == cells[1..][k - 1];
    }
  }

  /** `Math.min(...s)` of a non-empty list. */
  function MinOf(s: seq<int>): (r: int)
    requires |s| > 0
    ensures r in s && forall k :: 0 <= k < |s| ==> r <= s[k]
  {
    if |s| == 1 then s[0]
    else if s[0] < MinOf(s[1..]) then s[0]
    else MinOf(s[1..])
  }

  /** `Math.max(...s)` of a non-empty list. */
  function MaxOf(s: seq<int>): (r: int)
    requires |s| > 0
    ensures r in s && forall k :: 0 <= k < |s| ==> s[k] <= r
  {
    if |s| == 1 then s[0]
    else if s[0] > MaxOf(s[1..]) then s[0]
    else MaxOf(s[1..])
  }

  datatype BorderInfo = BorderInfo(isOut: bool, outRangeLength: int)

  /** The edge a side is measured against: column 0, column `w - 1`, or row
      `h - 1`. */
  function Edge(side: CollideType, w: int, h: int): int {
    match side
    case LeftBorder => 0
    case RightBorder => w - 1
    case BottomBorder => h - 1
  }

  /** `_getPieceBorderInfo`: whether some cell is past the given side, and by
      how much the farthest one is past it: for left the (negative) least
      column, for right and bottom the excess of the greatest column or row
      over the last one; 0 when nothing is out. */
  function GetPieceBorderInfo(cells: seq<Cell>, side: CollideType, w: int, h: int): (r: BorderInfo)
    ensures r.isOut <==> exists k :: 0 <= k < |cells| && Violates(cells[k], side, w, h)
    ensures !r.isOut ==> r.outRangeLength == 0
    ensures r.isOut && side == LeftBorder ==> r.outRangeLength < 0
    ensures r.isOut && side != LeftBorder ==> r.outRangeLength > 0
    ensures r.isOut ==> forall k :: 0 <= k < |cells| ==>
      (if side == LeftBorder then r.outRangeLength <= Measure(cells[k], side)
       else Measure(cells[k], side) - Edge(side, w, h) <= r.outRangeLength)
    ensures r.isOut ==>
      exists k :: 0 <= k < |cells| && Measure(cells[k], side) - Edge(side, w, h) == r.outRangeLength
  {
    var list := OutList(cells, side, w, h);
    OutListSpec(cells, side, w, h);
    OutListEmpty(cells, side, w, h);
    if |list| == 0 then
      BorderInfo(false, 0)
    else
      assert list[0] in list;
      var amount := match side
        case LeftBorder => MinOf(list)
        case RightBorder => MaxOf(list) - (w - 1)
        case BottomBorder => MaxOf(list) - (h - 1);
      assert forall k :: 0 <= k < |cells| && Violates(cells[k], side, w, h) ==> Measure(cells[k], side) in list;
      BorderInfo(true, amount)
  }

  /** `checkPieceIsOutRange`: stores the overflow amount on the board and
      reports whether some cell is past the side. */
  function CheckPieceIsOutRange(pl: Place, cells: seq<Cell>, side: CollideType): (r: (Place, bool))
    ensures r.1 <==> exists k :: 0 <= k < |cells| && Violates(cells[k], side, pl.width, pl.height)
    ensures r.0 == pl.(outRangeLength := r.0.outRangeLength)
    ensures !r.1 ==> r.0.outRangeLength == 0
  {
    var info := GetPieceBorderInfo(cells, side, pl.width, pl.height);
    (pl.(outRangeLength := info.outRangeLength), info.isOut)
  }

  // ------------------------------------------------------------ rows and score

  /** `checkIsLine`: appends the index of every full static row (without
      clearing the list first) and reports whether the list is non-empty. */
  function CheckIsLine(pl: Place): (r: (Place, bool))
    ensures r.0 == pl.(lineIndexes := r.0.lineIndexes)
    ensures |pl.lineIndexes| <= |r.0.lineIndexes| && r.0.lineIndexes[..|pl.lineIndexes|] == pl.lineIndexes
    ensures forall y: nat :: y in r.0.lineIndexes <==>
      y in pl.lineIndexes || (y < |pl.staticPlace| && IsFull(pl.staticPlace[y]))
    ensures forall k :: |pl.lineIndexes| <= k < |r.0.lineIndexes| ==> r.0.lineIndexes[k] < |pl.staticPlace|
    ensures StrictlyAscending(r.0.lineIndexes[|pl.lineIndexes|..])
    ensures r.0.lineIndexes[|pl.lineIndexes|..] == FullRows(pl.staticPlace)
    ensures r.1 <==> |r.0.lineIndexes| > 0
  {
    FullRowsSpec(pl.staticPlace);
    var ys := pl.lineIndexes + FullRows(pl.staticPlace);
    assert ys[|pl.lineIndexes|..] == FullRows(pl.staticPlace);
    (pl.(lineIndexes := ys), |ys| != 0)
  }

  /** `checkIsLine` does not clear the list first: a full row that is already
      listed is listed a second time, after the old entries. */
  lemma CheckIsLineRepeatsListed(pl: Place, y: nat)
    requires y in pl.lineIndexes && y < |pl.staticPlace| && IsFull(pl.staticPlace[y])
    ensures var ys := CheckIsLine(pl).0.lineIndexes;
      y in ys[..|pl.lineIndexes|] && y in ys[|pl.lineIndexes|..]
  {
    FullRowsSpec(pl.staticPlace);
  }

  /** `cleanLine`: for each listed index in turn, remove that row and put a
      zero row of the board's width on top; then empty the list. */
  function CleanLine(pl: Place): (r: Place)
    ensures r == pl.(staticPlace := r.staticPlace, lineIndexes := [])
  {
    pl.(staticPlace := ClearRows(pl.staticPlace, pl.lineIndexes, pl.width), lineIndexes := [])
  }

  /** With a strictly ascending list of existing rows, `cleanLine` keeps the
      board's size, removes exactly the listed rows, moves the others down in
      order, puts one zero row on top per removed row, and leaves the rows
      below the last listed one untouched. */
  lemma CleanLineCompacts(pl: Place)
    requires Wf(pl)
    requires StrictlyAscending(pl.lineIndexes)
    requires forall k :: 0 <= k < |pl.lineIndexes| ==> pl.lineIndexes[k] < pl.height
    ensures Wf(CleanLine(pl))
    ensures CleanLine(pl).staticPlace ==
      ZeroRows(|pl.lineIndexes|, pl.width) + Survivors(pl.staticPlace, pl.lineIndexes, 0, pl.height)
    ensures |pl.lineIndexes| > 0 ==>
      && (forall i :: 0 <= i < |pl.lineIndexes| ==> CleanLine(pl).staticPlace[i] == ZeroRow(pl.width))
      && (forall i :: pl.lineIndexes[|pl.lineIndexes| - 1] < i < pl.height ==>
            CleanLine(pl).staticPlace[i] == pl.staticPlace[i])
  {
    ClearRowsShape(pl.staticPlace, pl.lineIndexes, pl.width);
    ClearRowsKeepsSize(pl.staticPlace, pl.lineIndexes, pl.width);
    if |pl.lineIndexes| > 0 {
      ClearRowsTopAndBottom(pl.staticPlace, pl.lineIndexes, pl.width);
    }
  }

  /** `calcScore`: adds the normal score of the listed rows and records the
      longest run. The score never decreases: it gains at least 100 per
      listed row, and exactly the run-by-run closed form. */
  function CalcScore(pl: Place): (r: Place)
    ensures r == pl.(score := r.score, lineCount := r.lineCount)
    ensures r.score == pl.score + SumRunScores(Runs(pl.lineIndexes))
    ensures r.score >= pl.score + RowBase * |pl.lineIndexes|
    ensures |pl.lineIndexes| == 0 ==> r.lineCount == 0
    ensures |pl.lineIndexes| > 0 ==> r.lineCount == Longest(Runs(pl.lineIndexes)) && 1 <= r.lineCount <= |pl.lineIndexes|
  {
    var ys := pl.lineIndexes;
    var info := NormalScore(ys);
    RowPointsByRuns(ys);
    StreakBonus(ys);
    if |ys| > 0 then
      LastRowClosesRun(ys);
      SumBounds(Runs(ys));
      pl.(score := pl.score + info.score, lineCount := info.lineCount)
    else
      pl.(score := pl.score + info.score, lineCount := info.lineCount)
  }

  /** `calcTSpineScroe`: adds exactly 500 and changes nothing else. */
  function CalcTSpineScore(pl: Place): (r: Place)
    ensures r == pl.(score := r.score) && r.score - pl.score == 500
  {
    pl.(score := pl.score + 500)
  }
}

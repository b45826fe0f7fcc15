/** The game's state machine (src/tetrisMachine.ts) as a pure transition
    function. The stable states are New Game, Control (inside In Progress)
    and Game Over; the eventless states Check Is At Bottom, Check Is Line,
    New Round and Check Is Out Of Border are passed through inside one step.
    A JavaScript exception inside an action stops the machine; the model
    records it as the absorbing phase `Halted`.

    `Variant` selects how the guards read the board: `AsWritten` follows the
    source (collisions on the rendered grid, the border guard checks left
    and right only); `Corrected` tests collisions on the static grid and
    adds the bottom to the border guard. */
module Machine {
  import opened Types
  import opened Results
  import opened Matrices
  import opened Pieces
  import opened Rows
  import opened Scoring
  import opened Places

  datatype Variant = AsWritten | Corrected

  datatype Phase = NewGame | InControl | GameOver | Halted(fault: Fault)

  /** The machine's events; TICK comes from the timer actor. */
  datatype Event =
    | GameStart | RestartGame | Tick | RotateKey | SpeedupDown | SlowupDown
    | MoveRightKey | MoveLeftKey | DropDown

  /** The machine's context (board and current piece) with its phase. */
  datatype Tetris = Tetris(phase: Phase, place: Place, piece: Piece)

  /** The code a moving piece is drawn with: never a collision. */
  function MovingCode(k: Kind): (r: int)
    ensures 0 < r <= LockedAbove
  {
    11 + KindIndex(k)
  }

  /** The code a locked piece is written with: always a collision. */
  function LockedCode(k: Kind): (r: int)
    ensures r > LockedAbove
  {
    21 + KindIndex(k)
  }

  /** The machine's initial context on an `h` by `w` board. */
  function Init(h: nat, w: nat): Tetris {
    Tetris(NewGame, NewPlace(h, w), NewPiece(I))
  }

  /** A piece whose shape the machine can rotate and drop. */
  predicate Playable(p: Piece) {
    IsMatrix(p.matrix) && FilledCount(p.matrix) > 0
  }

  // ------------------------------------------------------------ guards

  /** The grid the collision guards read. */
  function CollisionGrid(v: Variant, pl: Place): Grid {
    if v == AsWritten then pl.rendered else pl.staticPlace
  }

  /** 'is collide piece' and 'is at Top'. */
  function Collides(v: Variant, pl: Place, cells: seq<Cell>): (r: bool)
    ensures r <==> exists k :: 0 <= k < |cells| && Hits(CollisionGrid(v, pl), cells[k])
  {
    AnyLockedSpec(pl.staticPlace, cells);
    if v == AsWritten then CheckIsPiecesCollide(pl, cells) else AnyLocked(pl.staticPlace, cells)
  }

  /** 'is at Bottom': `checkPieceIsOutRange(c, 'bottom')`. */
  function AtBottom(pl: Place, cells: seq<Cell>): (Place, bool) {
    CheckPieceIsOutRange(pl, cells, BottomBorder)
  }

  /** A cell the border guard rejects. */
  predicate Outside(v: Variant, c: Cell, w: int, h: int) {
    c.col < 0 || c.col > w - 1 || (v == Corrected && c.row > h - 1)
  }

  /** 'is out of Border': `checkPieceIsOutRange(c, 'left') ||
      checkPieceIsOutRange(c, 'right')`, with `|| (c, 'bottom')` added in the
      corrected reading. Each test stores its overflow amount. */
  function OutOfBorder(v: Variant, pl: Place, cells: seq<Cell>): (r: (Place, bool))
    ensures r.0 == pl.(outRangeLength := r.0.outRangeLength)
    ensures r.1 <==> exists k :: 0 <= k < |cells| && Outside(v, cells[k], pl.width, pl.height)
  {
    var (pl1, left) := CheckPieceIsOutRange(pl, cells, LeftBorder);
    if left then (pl1, true)
    else
      var (pl2, right) := CheckPieceIsOutRange(pl1, cells, RightBorder);
      if right || v == AsWritten then (pl2, right)
      else CheckPieceIsOutRange(pl2, cells, BottomBorder)
  }

  // ------------------------------------------------------------ actions

  /** 'renderPiece': draw the current piece on a fresh copy of the static grid. */
  function RenderPiece(s: Tetris): (r: Result<Tetris>)
    ensures r.Ok? <==> RowsPresent(s.place.staticPlace, Coordinates(s.piece))
    ensures r.Ok? ==> r.value == s.(phase := InControl, place := r.value.place)
    ensures r.Ok? ==> r.value.place == s.place.(rendered := r.value.place.rendered)
    ensures r.Ok? ==> Painted(r.value.place.rendered, s.place.staticPlace, Coordinates(s.piece), MovingCode(s.piece.kind))
  {
    match RenderPlace(s.place, Coordinates(s.piece), MovingCode(s.piece.kind))
    case Ok(pl) => Ok(s.(phase := InControl, place := pl))
    case Fail(f) => Fail(f)
  }

  /** 'renderHistoryPiece': undo the last move, then draw the piece. */
  function RenderHistoryPiece(s: Tetris): Result<Tetris> {
    match RestoreHistory(s.piece)
    case Ok(p) => RenderPiece(s.(piece := p))
    case Fail(f) => Fail(f)
  }

  /** 'setPieceStatic': undo the last move, then lock the piece into the
      static grid. */
  function SetPieceStatic(s: Tetris): Result<Tetris> {
    match RestoreHistory(s.piece)
    case Ok(p) =>
      (match SetMovingPieceStatic(s.place, Coordinates(p), LockedCode(p.kind))
       case Ok(pl) => Ok(s.(place := pl, piece := p))
       case Fail(f) => Fail(f))
    case Fail(f) => Fail(f)
  }

  /** Check Is Line: the 'is line' guard appends the full rows; when there
      are some, 'calcScore' then 'cleanLine' run. */
  function ScoreAndClear(pl: Place): Place {
    var (pl1, line) := CheckIsLine(pl);
    if line then CleanLine(CalcScore(pl1)) else pl1
  }

  // ------------------------------------------------------------ states

  /** New Round: 'generateNewPiece' (of the chosen kind), then Game Over if
      it collides, else 'renderPiece' and Control. */
  function NewRound(v: Variant, s: Tetris, next: Kind): Result<Tetris> {
    var p := NewPiece(next);
    if Collides(v, s.place, Coordinates(p)) then Ok(Tetris(GameOver, s.place, p))
    else RenderPiece(s.(piece := p))
  }

  /** Check Is Line followed by New Round. */
  function CheckIsLineState(v: Variant, s: Tetris, next: Kind): Result<Tetris> {
    NewRound(v, s.(place := ScoreAndClear(s.place)), next)
  }

  /** Check Is At Bottom, entered with the piece already moved down. */
  function CheckIsAtBottom(v: Variant, s: Tetris, next: Kind): Result<Tetris> {
    var cells := Coordinates(s.piece);
    var (pl, bottom) := AtBottom(s.place, cells);
    var s1 := s.(place := pl);
    if bottom || Collides(v, pl, cells) then
      (match SetPieceStatic(s1)
       case Ok(s2) => CheckIsLineState(v, s2, next)
       case Fail(f) => Fail(f))
    else RenderPiece(s1)
  }

  /** Check Is Out Of Border, entered with the piece already moved. */
  function CheckIsOutOfBorder(v: Variant, s: Tetris): Result<Tetris> {
    var cells := Coordinates(s.piece);
    var (pl, out) := OutOfBorder(v, s.place, cells);
    var s1 := s.(place := pl);
    if out || Collides(v, pl, cells) then RenderHistoryPiece(s1) else RenderPiece(s1)
  }

  /** Every cell of a piece lies at or below its anchor row. */
  lemma CellsBelowAnchor(p: Piece)
    requires Playable(p)
    ensures |Coordinates(p)| > 0
    ensures forall k :: 0 <= k < |Coordinates(p)| ==> Coordinates(p)[k].row >= p.y
  {
    CoordinateCounts(p);
    CoordinatesAreFilledCells(p);
    assert forall k :: 0 <= k < |Coordinates(p)| ==> Coordinates(p)[k] in Coordinates(p);
  }

  /** The loop's exit test for a piece whose cells are `cells`: some cell is
      below the last row, or some cell collides. */
  predicate Stops(v: Variant, pl: Place, cells: seq<Cell>) {
    AtBottom(pl, cells).1 || Collides(v, pl, cells)
  }

  /** The loop of 'dropDown': move down while the piece is neither at the
      bottom nor colliding, and return the first piece that is. The tests
      only read the grids and the height, so the board is passed unchanged;
      the overflow amount the loop leaves behind is that of its last bottom
      test, which `DropDownAction` repeats. */
  function DropLoop(v: Variant, pl: Place, p: Piece): (q: Piece)
    requires Playable(p)
    ensures q.matrix == p.matrix && q.x == p.x && q.kind == p.kind && q.y >= p.y
    decreases pl.height - p.y
  {
    if Stops(v, pl, Coordinates(p)) then p
    else
      AboveBottom(v, pl, p);
      DropLoop(v, pl, MoveDown(p))
  }

  /** A piece that does not stop has its anchor above the bottom row. */
  lemma AboveBottom(v: Variant, pl: Place, p: Piece)
    requires Playable(p)
    requires !Stops(v, pl, Coordinates(p))
    ensures p.y < pl.height
  {
    CellsBelowAnchor(p);
    assert Coordinates(p)[0].row <= pl.height - 1;
  }

  /** Two pieces with the same shape and anchor cover the same cells. */
  lemma SameCells(p: Piece, q: Piece)
    requires p.matrix == q.matrix && p.x == q.x && p.y == q.y
    ensures Coordinates(p) == Coordinates(q)
  {
  }

  /** The piece the loop returns is the first one (going down) that stops.
      When it moved at all, its newest snapshot is the position one row up,
      which did not stop; and the loop moves at least once from a piece that
      does not stop. */
  lemma {:induction false} DropLoopSpec(v: Variant, pl: Place, p: Piece)
    requires Playable(p)
    ensures var q := DropLoop(v, pl, p);
      && Stops(v, pl, Coordinates(q))
      && (q.y == p.y ==> q == p)
      && (q.y > p.y ==>
            && |q.history| > 0
            && q.history[|q.history| - 1] == Snapshot(p.matrix, p.x, q.y - 1)
            && !Stops(v, pl, Coordinates(p.(y := q.y - 1))))
      && (!Stops(v, pl, Coordinates(p)) ==> q.y > p.y)
    decreases pl.height - p.y
  {
    if !Stops(v, pl, Coordinates(p)) {
      AboveBottom(v, pl, p);
      var p1 := MoveDown(p);
      DropLoopSpec(v, pl, p1);
      var q := DropLoop(v, pl, p1);
      assert DropLoop(v, pl, p) == q;
      if q.y == p1.y {
        assert q == p1;
        assert p1.history == p.history + [Snapshot(p.matrix, p.x, p.y)];
        assert p.(y := q.y - 1) == p;
      } else {
        SameCells(p1.(y := q.y - 1), p.(y := q.y - 1));
      }
    }
  }

  /** 'dropDown': the loop, one step back, lock, and the line check. */
  function DropDownAction(v: Variant, s: Tetris): Result<Tetris>
    requires Playable(s.piece)
  {
    LockLanded(s, DropLoop(v, s.place, s.piece))
  }

  /** The part of 'dropDown' after the loop stopped at `q`: the bottom
      amount is recorded, the piece steps back and is locked, and the line
      check runs. */
  function LockLanded(s: Tetris, q: Piece): Result<Tetris> {
    var pl := AtBottom(s.place, Coordinates(q)).0;
    match SetPieceStatic(Tetris(s.phase, pl, q))
    case Ok(s1) => Ok(s1.(place := ScoreAndClear(s1.place)))
    case Fail(f) => Fail(f)
  }

  /** The state reached from `s` when the pass through the eventless states
      ended with `r`; an exception stops the machine. */
  function Settle(s: Tetris, r: Result<Tetris>): Tetris {
    match r
    case Ok(t) => t
    case Fail(f) => s.(phase := Halted(f))
  }

  /** TICK in Control: 'moveDown', then Check Is At Bottom. */
  function TickStep(v: Variant, s: Tetris, next: Kind): Tetris {
    Settle(s, CheckIsAtBottom(v, s.(piece := MoveDown(s.piece)), next))
  }

  /** ROTATE, MOVE_LEFT or MOVE_RIGHT in Control: the move, then Check Is
      Out Of Border. */
  function MoveStep(v: Variant, s: Tetris, c: Control): Tetris
    requires c == Rotate ==> IsMatrix(s.piece.matrix)
  {
    Settle(s, CheckIsOutOfBorder(v, s.(piece := Apply(s.piece, c))))
  }

  /** DROP_DOWN in Control: 'dropDown', then New Round. */
  function DropStep(v: Variant, s: Tetris, next: Kind): Tetris
    requires Playable(s.piece)
  {
    Settle(s, match DropDownAction(v, s)
              case Ok(s1) => NewRound(v, s1, next)
              case Fail(f) => Fail(f))
  }

  /** One event. `next` is the kind 'generateNewPiece' draws if a New Round
      is entered. */
  function Step(v: Variant, s: Tetris, e: Event, next: Kind): (r: Tetris)
    requires s.phase == InControl ==> Playable(s.piece)
    ensures s.phase.Halted? ==> r == s
    ensures s.phase == NewGame ==> (r.phase == NewGame <==> e != GameStart) && (e != GameStart ==> r == s)
    ensures s.phase == GameOver ==> (r.phase == NewGame <==> e == RestartGame) && (e != RestartGame ==> r == s)
    ensures r.phase == NewGame ==> s.phase == NewGame || (s.phase == GameOver && e == RestartGame)
  {
    match s.phase
    case Halted(_) => s
    case NewGame =>
      if e == GameStart then Settle(s, NewRound(v, s, next)) else s
    case GameOver =>
      if e == RestartGame then Tetris(NewGame, NewPlace(s.place.height, s.place.width), s.piece) else s
    case InControl =>
      match e
      case Tick => TickStep(v, s, next)
      case RotateKey => MoveStep(v, s, Rotate)
      case MoveLeftKey => MoveStep(v, s, Left)
      case MoveRightKey => MoveStep(v, s, Right)
      case DropDown => DropStep(v, s, next)
      case _ => s
  }
}

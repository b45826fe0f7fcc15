/** What each transition of the machine does, stated against the board and
    the piece rather than against the machine's own functions. */
module Rules {
  import opened Types
  import opened Results
  import opened Matrices
  import opened Pieces
  import opened Rows
  import opened Scoring
  import opened Places
  import opened Machine

  /** A new piece covers rows 0..3 and columns 4..6 only, so it fits a board
      of at least 4 rows and 7 columns. */
  lemma NarrowShapes(k: Kind)
    ensures forall i :: 0 <= i < |Shape(k)| ==> |Shape(k)[i]| <= 3 || (|Shape(k)[i]| == 4 && Shape(k)[i][3] == 0)
  {
  }

  /** A matrix of at most four rows whose fourth column is empty, anchored
      at (4, 0), covers rows 0..3 and columns 4..6 only. */
  lemma NarrowCells(p: Piece)
    requires p.x == SpawnX && p.y == SpawnY && |p.matrix| <= 4
    requires forall i :: 0 <= i < |p.matrix| ==> |p.matrix[i]| <= 3 || (|p.matrix[i]| == 4 && p.matrix[i][3] == 0)
    ensures forall c :: c in Coordinates(p) ==> 0 <= c.row <= 3 && 4 <= c.col <= 6
  {
    CoordinatesAreFilledCells(p);
  }

  lemma SpawnCells(k: Kind)
    ensures forall c :: c in Coordinates(NewPiece(k)) ==> 0 <= c.row <= 3 && 4 <= c.col <= 6
  {
    ShapesAreTetrominoes(k);
    NarrowShapes(k);
    NarrowCells(NewPiece(k));
  }

  /** New Round: the fresh piece of the chosen kind ends the game exactly
      when one of its cells is a locked cell of the grid the guard reads;
      otherwise it is drawn and the machine waits in Control. The round never
      fails on a board of at least 4 rows and 7 columns. */
  lemma SpawnRule(v: Variant, s: Tetris, next: Kind)
    requires Wf(s.place) && s.place.height >= 4 && s.place.width >= 7
    ensures var r := NewRound(v, s, next); var cells := Coordinates(NewPiece(next));
      && r.Ok?
      && r.value.piece == NewPiece(next)
      && (r.value.phase == GameOver <==> exists k :: 0 <= k < |cells| && Hits(CollisionGrid(v, s.place), cells[k]))
      && (r.value.phase == GameOver ==> r.value.place == s.place)
      && (r.value.phase != GameOver ==>
            && r.value.phase == InControl
            && r.value.place == s.place.(rendered := r.value.place.rendered)
            && Painted(r.value.place.rendered, s.place.staticPlace, cells, MovingCode(next)))
  {
    SpawnCells(next);
    var cells := Coordinates(NewPiece(next));
    assert forall k :: 0 <= k < |cells| ==> cells[k] in cells;
  }

  /** From New Game only GAME_START moves on, and it enters New Round. */
  lemma GameStartRule(v: Variant, s: Tetris, next: Kind)
    requires s.phase == NewGame
    requires Wf(s.place) && s.place.height >= 4 && s.place.width >= 7
    ensures NewRound(v, s, next).Ok? && Step(v, s, GameStart, next) == NewRound(v, s, next).value
  {
    assert Step(v, s, GameStart, next) == Settle(s, NewRound(v, s, next));
    SpawnRule(v, s, next);
  }

  /** Game Over leaves only on RESTART_GAME, which installs a fresh all-zero
      board of the same size and returns to New Game. */
  lemma RestartRule(v: Variant, s: Tetris, e: Event, next: Kind)
    requires s.phase == GameOver
    ensures e != RestartGame ==> Step(v, s, e, next) == s
    ensures var r := Step(v, s, RestartGame, next);
      && r.phase == NewGame && Wf(r.place)
      && r.place.height == s.place.height && r.place.width == s.place.width
      && (forall i, j :: 0 <= i < r.place.height && 0 <= j < r.place.width ==>
            r.place.staticPlace[i][j] == 0 && r.place.rendered[i][j] == 0)
      && r.place.score == 0 && r.place.lineIndexes == []
  {
  }

  /** `pl1` is `pl` with `cells` locked into the static grid with `code`;
      only the stored out-of-range amount may differ besides. */
  predicate LockedIn(pl1: Place, pl: Place, cells: seq<Cell>, code: int) {
    && pl1 == pl.(staticPlace := pl1.staticPlace, outRangeLength := pl1.outRangeLength)
    && Painted(pl1.staticPlace, pl.staticPlace, cells, code)
  }

  /** The control a move event applies. */
  function MoveControl(e: Event): Control
    requires e in {RotateKey, MoveLeftKey, MoveRightKey}
  {
    match e
    case RotateKey => Rotate
    case MoveLeftKey => Left
    case _ => Right
  }

  /** The out-of-border and collision guards reject the moved piece. */
  predicate Rejected(v: Variant, pl: Place, cells: seq<Cell>) {
    || (exists k :: 0 <= k < |cells| && Outside(v, cells[k], pl.width, pl.height))
    || (exists k :: 0 <= k < |cells| && Hits(CollisionGrid(v, pl), cells[k]))
  }

  /** A rejected ROTATE, MOVE_LEFT or MOVE_RIGHT: `restoreHistory` reverts
      exactly that move (only the control log keeps it) and the old position
      is drawn again; only the rendered grid and the stored amount change. */
  lemma MoveRejectedRule(v: Variant, s: Tetris, e: Event, next: Kind)
    requires e in {RotateKey, MoveLeftKey, MoveRightKey}
    requires s.phase == InControl && Playable(s.piece)
    requires RowsPresent(s.place.staticPlace, Coordinates(s.piece))
    requires Rejected(v, s.place, Coordinates(Apply(s.piece, MoveControl(e))))
    ensures var c := MoveControl(e); var r := Step(v, s, e, next);
      && r.place == s.place.(rendered := r.place.rendered, outRangeLength := r.place.outRangeLength)
      && r.phase == InControl
      && r.piece == s.piece.(controls := s.piece.controls + [ControlRecord(c, s.piece.kind)])
      && Painted(r.place.rendered, s.place.staticPlace, Coordinates(s.piece), MovingCode(s.piece.kind))
  {
    var c := MoveControl(e);
    var moved := Apply(s.piece, c);
    RestoreUndoesApply(s.piece, c);
    assert Step(v, s, e, next) == MoveStep(v, s, c);
    var (pl, out) := OutOfBorder(v, s.place, Coordinates(moved));
    assert out || Collides(v, pl, Coordinates(moved));
  }

  /** An accepted ROTATE, MOVE_LEFT or MOVE_RIGHT: the moved piece is drawn,
      which fails (stopping the machine) exactly when one of its rows is
      missing; only the rendered grid and the stored amount change. */
  lemma MoveAcceptedRule(v: Variant, s: Tetris, e: Event, next: Kind)
    requires e in {RotateKey, MoveLeftKey, MoveRightKey}
    requires s.phase == InControl && Playable(s.piece)
    requires !Rejected(v, s.place, Coordinates(Apply(s.piece, MoveControl(e))))
    ensures var moved := Apply(s.piece, MoveControl(e)); var r := Step(v, s, e, next);
      && r.place == s.place.(rendered := r.place.rendered, outRangeLength := r.place.outRangeLength)
      && (r.phase == InControl <==> RowsPresent(s.place.staticPlace, Coordinates(moved)))
      && (r.phase != InControl ==> r.phase == Halted(MissingRow))
      && (r.phase == InControl ==>
            r.piece == moved &&
            Painted(r.place.rendered, s.place.staticPlace, Coordinates(moved), MovingCode(s.piece.kind)))
  {
    var c := MoveControl(e);
    var moved := Apply(s.piece, c);
    assert Step(v, s, e, next) == MoveStep(v, s, c);
    var (pl, out) := OutOfBorder(v, s.place, Coordinates(moved));
    assert !(out || Collides(v, pl, Coordinates(moved)));
  }

  /** ROTATE, MOVE_LEFT, MOVE_RIGHT in Control: the move is applied; when the
      guards reject it, `restoreHistory` reverts exactly that move (only the
      control log keeps it) and the old position is drawn again; otherwise
      the moved piece is drawn, which fails only when one of its rows is
      missing. The static grid, the score and the row list do not change. */
  lemma MoveRule(v: Variant, s: Tetris, e: Event, next: Kind)
    requires e in {RotateKey, MoveLeftKey, MoveRightKey}
    requires s.phase == InControl && Playable(s.piece)
    requires RowsPresent(s.place.staticPlace, Coordinates(s.piece))
    ensures var c := MoveControl(e); var moved := Apply(s.piece, c); var r := Step(v, s, e, next);
      && r.place == s.place.(rendered := r.place.rendered, outRangeLength := r.place.outRangeLength)
      && (Rejected(v, s.place, Coordinates(moved)) ==>
            && r.phase == InControl
            && r.piece == s.piece.(controls := s.piece.controls + [ControlRecord(c, s.piece.kind)])
            && Painted(r.place.rendered, s.place.staticPlace, Coordinates(s.piece), MovingCode(s.piece.kind)))
      && (!Rejected(v, s.place, Coordinates(moved)) ==>
            && (r.phase == InControl <==> RowsPresent(s.place.staticPlace, Coordinates(moved)))
            && (r.phase != InControl ==> r.phase == Halted(MissingRow))
            && (r.phase == InControl ==>
                  r.piece == moved &&
                  Painted(r.place.rendered, s.place.staticPlace, Coordinates(moved), MovingCode(s.piece.kind))))
  {
    if Rejected(v, s.place, Coordinates(Apply(s.piece, MoveControl(e)))) {
      MoveRejectedRule(v, s, e, next);
    } else {
      MoveAcceptedRule(v, s, e, next);
    }
  }

  /** Cells of the same shape at an anchor no higher stay at row 0 or below. */
  lemma LowerCellsNonNegative(g: Grid, p: Piece, q: Piece)
    requires q.matrix == p.matrix && q.y >= p.y
    requires RowsPresent(g, Coordinates(p))
    ensures forall k :: 0 <= k < |Coordinates(q)| ==> Coordinates(q)[k].row >= 0
  {
    CoordinatesShift(p, q);
    var cs := Coordinates(p);
    forall k | 0 <= k < |Coordinates(q)|
      ensures Coordinates(q)[k].row >= 0
    {
      var c := Coordinates(q)[k];
      assert c in Coordinates(q);
      var d := Cell(c.row - (q.y - p.y), c.col - (q.x - p.x));
      var j :| 0 <= j < |cs| && cs[j] == d;
    }
  }

  /** A piece at or below a piece whose rows exist, and not past the bottom,
      has all its rows on the board. */
  lemma LowerRowsPresent(pl: Place, p: Piece, q: Piece)
    requires Wf(pl)
    requires q.matrix == p.matrix && q.y >= p.y
    requires RowsPresent(pl.staticPlace, Coordinates(p))
    requires !AtBottom(pl, Coordinates(q)).1
    ensures RowsPresent(pl.staticPlace, Coordinates(q))
  {
    LowerCellsNonNegative(pl.staticPlace, p, q);
  }

  /** TICK in Control: the piece moves down one row. If it is then past the
      bottom or colliding, it is restored to where it was (only the control
      log keeps the move), locked there in the static grid, and the machine
      goes through Check Is Line to New Round; otherwise the moved piece is
      drawn and the machine waits in Control. */
  lemma TickRule(v: Variant, s: Tetris, next: Kind)
    requires s.phase == InControl && Playable(s.piece) && Wf(s.place)
    requires RowsPresent(s.place.staticPlace, Coordinates(s.piece))
    ensures var moved := MoveDown(s.piece); var r := Step(v, s, Tick, next);
      && (!Stops(v, s.place, Coordinates(moved)) ==>
            && r.phase == InControl && r.piece == moved
            && r.place == s.place.(rendered := r.place.rendered, outRangeLength := r.place.outRangeLength)
            && Painted(r.place.rendered, s.place.staticPlace, Coordinates(moved), MovingCode(s.piece.kind)))
      && (Stops(v, s.place, Coordinates(moved)) ==>
            exists pl1: Place ::
              && LockedIn(pl1, s.place, Coordinates(s.piece), LockedCode(s.piece.kind))
              && var back := s.piece.(controls := s.piece.controls + [ControlRecord(Down, s.piece.kind)]);
                 r == Settle(s, NewRound(v, Tetris(InControl, ScoreAndClear(pl1), back), next)))
  {
    var moved := MoveDown(s.piece);
    RestoreUndoesApply(s.piece, Down);
    var s1 := s.(piece := moved);
    assert Step(v, s, Tick, next) == TickStep(v, s, next);
    var (pl, bottom) := AtBottom(s.place, Coordinates(moved));
    if Stops(v, s.place, Coordinates(moved)) {
      assert bottom || Collides(v, pl, Coordinates(moved));
      var s1' := s1.(place := pl);
      var back := s.piece.(controls := s.piece.controls + [ControlRecord(Down, s.piece.kind)]);
      assert RestoreHistory(moved) == Ok(back);
      assert Coordinates(back) == Coordinates(s.piece);
      var locked := SetMovingPieceStatic(pl, Coordinates(back), LockedCode(back.kind));
      assert locked.Ok?;
      var pl1 := locked.value;
      assert SetPieceStatic(s1') == Ok(s1'.(place := pl1, piece := back));
      assert LockedIn(pl1, s.place, Coordinates(s.piece), LockedCode(s.piece.kind));
    } else {
      LowerRowsPresent(s.place, s.piece, moved);
    }
  }

  /** Check Is Line on a board with an empty row list: with no full row the
      board is unchanged; otherwise the score grows by the run-by-run points
      of the full rows, the longest run is recorded, the full rows are
      removed with zero rows put on top, and the list is emptied. */
  lemma ScoreAndClearRule(pl: Place)
    requires Wf(pl) && pl.lineIndexes == []
    ensures var ys := FullRows(pl.staticPlace); var r := ScoreAndClear(pl);
      && Wf(r) && r.lineIndexes == [] && r.score >= pl.score
      && r.rendered == pl.rendered && r.width == pl.width && r.height == pl.height
      && (|ys| == 0 ==> r == pl)
      && (|ys| > 0 ==>
            && r.score == pl.score + SumRunScores(Runs(ys))
            && r.lineCount == Longest(Runs(ys))
            && r.staticPlace == ZeroRows(|ys|, pl.width) + Survivors(pl.staticPlace, ys, 0, pl.height))
  {
    var ys := FullRows(pl.staticPlace);
    FullRowsSpec(pl.staticPlace);
    var (pl1, line) := CheckIsLine(pl);
    assert pl1.lineIndexes == ys;
    if line {
      var pl2 := CalcScore(pl1);
      CleanLineCompacts(pl2);
    } else {
      assert pl1 == pl;
    }
  }

  /** The drop loop from a piece that neither is past the bottom nor
      collides moves it at least once, to the first position that stops; one
      row up, the landing position, does not stop. */
  lemma DropLanding(v: Variant, pl: Place, p: Piece)
    requires Playable(p)
    requires !Stops(v, pl, Coordinates(p))
    ensures var q := DropLoop(v, pl, p);
      && q.y > p.y
      && Stops(v, pl, Coordinates(q)) && !Stops(v, pl, Coordinates(p.(y := q.y - 1)))
      && RestoreHistory(q).Ok?
      && Coordinates(RestoreHistory(q).value) == Coordinates(p.(y := q.y - 1))
      && RestoreHistory(q).value.kind == p.kind
      && RestoreHistory(q).value.matrix == p.matrix
      && RestoreHistory(q).value.x == p.x && RestoreHistory(q).value.y == q.y - 1
  {
    DropLoopSpec(v, pl, p);
    var q := DropLoop(v, pl, p);
    SameCells(RestoreHistory(q).value, p.(y := q.y - 1));
  }

  /** 'setPieceStatic' on a piece with a saved position whose rows exist:
      the piece goes back to that position and is locked there. */
  lemma SetPieceStaticRule(s: Tetris)
    requires |s.piece.history| > 0
    requires RowsPresent(s.place.staticPlace, Coordinates(RestoreHistory(s.piece).value))
    ensures SetPieceStatic(s).Ok?
    ensures var back := RestoreHistory(s.piece).value; var t := SetPieceStatic(s).value;
      && t.piece == back && t.phase == s.phase
      && t.place == s.place.(staticPlace := t.place.staticPlace)
      && Painted(t.place.staticPlace, s.place.staticPlace, Coordinates(back), LockedCode(back.kind))
  {
  }

  /** After the loop: a piece that steps back to `landing`, whose rows
      exist, is locked there and the full rows are scored and cleared. */
  lemma LockLandedRule(s: Tetris, q: Piece, landing: Piece)
    requires RestoreHistory(q).Ok?
    requires Coordinates(RestoreHistory(q).value) == Coordinates(landing)
    requires RestoreHistory(q).value.kind == landing.kind
    requires RowsPresent(s.place.staticPlace, Coordinates(landing))
    ensures LockLanded(s, q).Ok?
    ensures var t := LockLanded(s, q).value;
      && t.piece == RestoreHistory(q).value
      && exists pl1: Place ::
           && LockedIn(pl1, s.place, Coordinates(landing), LockedCode(landing.kind))
           && t.place == ScoreAndClear(pl1)
  {
    var pl := AtBottom(s.place, Coordinates(q)).0;
    var s0 := Tetris(s.phase, pl, q);
    SetPieceStaticRule(s0);
    var s1 := SetPieceStatic(s0).value;
    assert LockedIn(s1.place, s.place, Coordinates(landing), LockedCode(landing.kind));
  }

  /** The landing position of a piece whose rows exist is a saved position
      of the loop's result, and its rows exist too. */
  lemma LandingReady(v: Variant, pl: Place, p: Piece)
    requires Playable(p) && Wf(pl)
    requires RowsPresent(pl.staticPlace, Coordinates(p))
    requires !Stops(v, pl, Coordinates(p))
    ensures var q := DropLoop(v, pl, p); var landing := p.(y := q.y - 1);
      && RestoreHistory(q).Ok?
      && RestoreHistory(q).value.matrix == p.matrix
      && RestoreHistory(q).value.x == p.x && RestoreHistory(q).value.y == landing.y
      && Coordinates(RestoreHistory(q).value) == Coordinates(landing)
      && RestoreHistory(q).value.kind == landing.kind
      && RowsPresent(pl.staticPlace, Coordinates(landing))
  {
    var q := DropLoop(v, pl, p);
    var landing := p.(y := q.y - 1);
    DropLanding(v, pl, p);
    LowerRowsPresent(pl, p, landing);
  }

  /** 'dropDown' from such a piece: the loop's last position steps back to
      the landing position and the lock there succeeds, so 'dropDown' ends
      with the piece at the landing position locked into the board (see
      `LockLandedRule`). */
  lemma DropActionRule(v: Variant, s: Tetris)
    requires Playable(s.piece) && Wf(s.place)
    requires RowsPresent(s.place.staticPlace, Coordinates(s.piece))
    requires !Stops(v, s.place, Coordinates(s.piece))
    ensures var q := DropLoop(v, s.place, s.piece); var landing := s.piece.(y := q.y - 1);
      && DropDownAction(v, s).Ok?
      && DropDownAction(v, s) == LockLanded(s, q)
      && var t := DropDownAction(v, s).value;
         && t.piece.matrix == s.piece.matrix && t.piece.x == s.piece.x && t.piece.y == landing.y
         && exists pl1: Place ::
              && LockedIn(pl1, s.place, Coordinates(landing), LockedCode(landing.kind))
              && t.place == ScoreAndClear(pl1)
  {
    var q := DropLoop(v, s.place, s.piece);
    var landing := s.piece.(y := q.y - 1);
    LandingReady(v, s.place, s.piece);
    LockLandedRule(s, q, landing);
  }

  /** DROP_DOWN in Control: 'dropDown' runs, then New Round. */
  lemma DropRule(v: Variant, s: Tetris, next: Kind)
    requires s.phase == InControl && Playable(s.piece) && Wf(s.place)
    requires RowsPresent(s.place.staticPlace, Coordinates(s.piece))
    requires !Stops(v, s.place, Coordinates(s.piece))
    ensures DropDownAction(v, s).Ok?
    ensures Step(v, s, DropDown, next) == Settle(s, NewRound(v, DropDownAction(v, s).value, next))
  {
    assert Step(v, s, DropDown, next) == DropStep(v, s, next);
    assert DropDownAction(v, s).Ok? by {
      DropActionRule(v, s);
    }
    var s1 := DropDownAction(v, s).value;
    assert DropStep(v, s, next) == Settle(s, NewRound(v, s1, next));
  }
}

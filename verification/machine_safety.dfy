/** What stays true between events, with every new piece drawn from the
    seven kinds (the `next` and `kinds` parameters). In the corrected
    reading, the machine started on a board of at least 4 rows and 7 columns
    then never stops on an exception: the moving piece always lies on
    existing rows, on no locked cell, and is drawn on the rendered grid. Over
    the same seven-kind draw, the source as written keeps the invariant on
    every event except ROTATE, which can carry a piece past the bottom row
    and stop the machine. The source as written also draws keys 7 and 8,
    which stop it on spawning; that draw is outside these lemmas and is
    shown by `Findings.SpawnDrawCanFail`. The score never decreases except
    on RESTART_GAME. */
module MachineSafety {
  import opened Types
  import opened Results
  import opened Matrices
  import opened Pieces
  import opened Places
  import opened Machine
  import opened Rules

  /** The board between events: well-formed grids large enough for a new
      piece, and no full-row indices left over. */
  predicate BoardOk(pl: Place) {
    Wf(pl) && pl.height >= 4 && pl.width >= 7 && pl.lineIndexes == []
  }

  /** The moving piece in Control: a playable shape at or below row 0 whose
      rows exist, that collides with nothing the guards read, and that the
      rendered grid shows over the static grid. */
  predicate PieceOk(v: Variant, pl: Place, p: Piece) {
    && Playable(p) && p.y >= 0
    && RowsPresent(pl.staticPlace, Coordinates(p))
    && !Collides(v, pl, Coordinates(p))
    && Painted(pl.rendered, pl.staticPlace, Coordinates(p), MovingCode(p.kind))
  }

  predicate Inv(v: Variant, s: Tetris) {
    && BoardOk(s.place)
    && !s.phase.Halted?
    && (s.phase == InControl ==> PieceOk(v, s.place, s.piece))
  }

  /** The machine's start state satisfies the invariant. */
  lemma InitInv(v: Variant, h: nat, w: nat)
    requires h >= 4 && w >= 7
    ensures Inv(v, Init(h, w))
    ensures Init(h, w).phase == NewGame && Init(h, w).place.score == 0
  {
  }

  /** A grid painted over a grid of some size has that size. */
  lemma PaintedKeepsSize(r: Grid, g: Grid, cells: seq<Cell>, code: int, h: nat, w: nat)
    requires IsGrid(g, h, w) && Painted(r, g, cells, code)
    ensures IsGrid(r, h, w)
  {
  }

  /** Cells painted with a moving code never count as collisions. */
  lemma OwnCellsNoHit(r: Grid, g: Grid, cells: seq<Cell>, code: int)
    requires Painted(r, g, cells, code) && code <= LockedAbove
    ensures forall k :: 0 <= k < |cells| ==> !Hits(r, cells[k])
  {
    forall k | 0 <= k < |cells|
      ensures !Hits(r, cells[k])
    {
      if InGrid(r, cells[k]) {
        assert cells[k] in cells;
        assert cells[k] == Cell(cells[k].row, cells[k].col);
      }
    }
  }

  /** In the source as written the guards read the rendered grid, which
      shows the moving piece with a code below the collision threshold: the
      piece never collides with itself. */
  lemma DrawnPieceNoCollision(pl: Place, p: Piece)
    requires Painted(pl.rendered, pl.staticPlace, Coordinates(p), MovingCode(p.kind))
    ensures !Collides(AsWritten, pl, Coordinates(p))
  {
    OwnCellsNoHit(pl.rendered, pl.staticPlace, Coordinates(p), MovingCode(p.kind));
  }

  /** A piece on existing rows is not past the bottom. */
  lemma PresentNotBelow(pl: Place, cells: seq<Cell>)
    requires Wf(pl) && RowsPresent(pl.staticPlace, cells)
    ensures !AtBottom(pl, cells).1
  {
  }

  /** Moving sideways keeps the rows a piece covers. */
  lemma SidewaysRowsPresent(g: Grid, p: Piece, q: Piece)
    requires q.matrix == p.matrix && q.y == p.y
    requires RowsPresent(g, Coordinates(p))
    ensures RowsPresent(g, Coordinates(q))
  {
    CoordinatesShift(p, q);
    var cs := Coordinates(p);
    forall k | 0 <= k < |Coordinates(q)|
      ensures 0 <= Coordinates(q)[k].row < |g|
    {
      var c := Coordinates(q)[k];
      assert c in Coordinates(q);
      var j :| 0 <= j < |cs| && cs[j] == Cell(c.row, c.col - (q.x - p.x));
    }
  }

  /** A playable piece at or below row 0 whose cells are all above the
      bottom row lies on existing rows. */
  lemma InsideRowsPresent(pl: Place, p: Piece)
    requires Wf(pl) && Playable(p) && p.y >= 0
    requires forall k :: 0 <= k < |Coordinates(p)| ==> Coordinates(p)[k].row <= pl.height - 1
    ensures RowsPresent(pl.staticPlace, Coordinates(p))
  {
    CellsBelowAnchor(p);
  }

  /** New Round from a sound board always succeeds, keeps the score, and
      reaches a state satisfying the invariant. */
  lemma NewRoundInv(v: Variant, s: Tetris, next: Kind)
    requires BoardOk(s.place)
    ensures NewRound(v, s, next).Ok?
    ensures Inv(v, NewRound(v, s, next).value)
    ensures NewRound(v, s, next).value.place.score == s.place.score
  {
    SpawnRule(v, s, next);
    var r := NewRound(v, s, next).value;
    if r.phase != GameOver {
      var p := NewPiece(next);
      ShapesAreTetrominoes(next);
      SpawnCells(next);
      PaintedKeepsSize(r.place.rendered, s.place.staticPlace, Coordinates(p), MovingCode(next), s.place.height, s.place.width);
      if v == AsWritten {
        DrawnPieceNoCollision(r.place, p);
      }
    }
  }

  /** Locking a piece and scoring keeps a sound board sound and never lowers
      the score. */
  lemma LockKeepsBoard(pl: Place, pl1: Place, cells: seq<Cell>, code: int)
    requires BoardOk(pl) && LockedIn(pl1, pl, cells, code)
    ensures BoardOk(ScoreAndClear(pl1)) && ScoreAndClear(pl1).score >= pl.score
  {
    PaintedKeepsSize(pl1.staticPlace, pl.staticPlace, cells, code, pl.height, pl.width);
    ScoreAndClearRule(pl1);
  }

  /** TICK keeps the invariant and never lowers the score. */
  lemma TickInv(v: Variant, s: Tetris, next: Kind)
    requires s.phase == InControl && Inv(v, s)
    ensures Inv(v, Step(v, s, Tick, next))
    ensures Step(v, s, Tick, next).place.score >= s.place.score
  {
    TickRule(v, s, next);
    var moved := MoveDown(s.piece);
    var r := Step(v, s, Tick, next);
    if Stops(v, s.place, Coordinates(moved)) {
      var back := s.piece.(controls := s.piece.controls + [ControlRecord(Down, s.piece.kind)]);
      var pl1: Place :| && LockedIn(pl1, s.place, Coordinates(s.piece), LockedCode(s.piece.kind))
                        && r == Settle(s, NewRound(v, Tetris(InControl, ScoreAndClear(pl1), back), next));
      LockKeepsBoard(s.place, pl1, Coordinates(s.piece), LockedCode(s.piece.kind));
      NewRoundInv(v, Tetris(InControl, ScoreAndClear(pl1), back), next);
    } else {
      LowerRowsPresent(s.place, s.piece, moved);
      PaintedKeepsSize(r.place.rendered, s.place.staticPlace, Coordinates(moved), MovingCode(s.piece.kind), s.place.height, s.place.width);
      if v == AsWritten {
        DrawnPieceNoCollision(r.place, moved);
      }
    }
  }

  /** The moved piece of an accepted move (sideways, or a rotation the
      corrected border guard lets through) lies on existing rows. */
  lemma AcceptedRowsPresent(v: Variant, s: Tetris, c: Control)
    requires c in {Left, Right, Rotate} && s.phase == InControl && Inv(v, s)
    requires !Rejected(v, s.place, Coordinates(Apply(s.piece, c)))
    requires c == Rotate ==> v == Corrected
    ensures Playable(Apply(s.piece, c)) && Apply(s.piece, c).y == s.piece.y
    ensures RowsPresent(s.place.staticPlace, Coordinates(Apply(s.piece, c)))
  {
    var moved := Apply(s.piece, c);
    if c == Rotate {
      var cs := Coordinates(moved);
      forall k | 0 <= k < |cs|
        ensures cs[k].row <= s.place.height - 1
      {
        assert !Outside(v, cs[k], s.place.width, s.place.height);
      }
      InsideRowsPresent(s.place, moved);
    } else {
      SidewaysRowsPresent(s.place.staticPlace, s.piece, moved);
    }
  }

  /** ROTATE, MOVE_LEFT and MOVE_RIGHT keep the score and the invariant,
      except that in the source as written a rotation may stop the machine
      on a missing row. (No piece is drawn on these events.) */
  lemma MoveInv(v: Variant, s: Tetris, e: Event, next: Kind)
    requires e in {RotateKey, MoveLeftKey, MoveRightKey} && s.phase == InControl && Inv(v, s)
    ensures var r := Step(v, s, e, next);
      && r.place.score == s.place.score
      && (Inv(v, r) || (v == AsWritten && e == RotateKey && r.phase == Halted(MissingRow)))
  {
    var c := MoveControl(e);
    var moved := Apply(s.piece, c);
    var r := Step(v, s, e, next);
    if Rejected(v, s.place, Coordinates(moved)) {
      MoveRejectedRule(v, s, e, next);
      PaintedKeepsSize(r.place.rendered, s.place.staticPlace, Coordinates(s.piece), MovingCode(s.piece.kind), s.place.height, s.place.width);
      assert PieceOk(v, r.place, r.piece) by {
        SameCells(r.piece, s.piece);
        if v == AsWritten {
          DrawnPieceNoCollision(r.place, r.piece);
        }
      }
    } else {
      MoveAcceptedRule(v, s, e, next);
      if c != Rotate || v == Corrected {
        AcceptedRowsPresent(v, s, c);
      }
      if r.phase == InControl {
        PaintedKeepsSize(r.place.rendered, s.place.staticPlace, Coordinates(moved), MovingCode(s.piece.kind), s.place.height, s.place.width);
        assert PieceOk(v, r.place, r.piece) by {
          assert Playable(moved) && moved.y == s.piece.y;
          if v == AsWritten {
            DrawnPieceNoCollision(r.place, r.piece);
          }
        }
      }
    }
  }

  /** In Control the moving piece never stops where it is: it is on
      existing rows and collides with nothing the guards read. */
  lemma PieceDoesNotStop(v: Variant, s: Tetris)
    requires s.phase == InControl && Inv(v, s)
    ensures !Stops(v, s.place, Coordinates(s.piece))
  {
    PresentNotBelow(s.place, Coordinates(s.piece));
  }

  /** 'dropDown' from Control leaves a sound board with no lower score. */
  lemma DropKeepsBoard(v: Variant, s: Tetris)
    requires s.phase == InControl && Inv(v, s)
    ensures DropDownAction(v, s).Ok?
    ensures BoardOk(DropDownAction(v, s).value.place)
    ensures DropDownAction(v, s).value.place.score >= s.place.score
  {
    PieceDoesNotStop(v, s);
    var q := DropLoop(v, s.place, s.piece);
    var landing := s.piece.(y := q.y - 1);
    LandingReady(v, s.place, s.piece);
    var s0 := Tetris(s.phase, AtBottom(s.place, Coordinates(q)).0, q);
    SetPieceStaticRule(s0);
    var s1 := SetPieceStatic(s0).value;
    assert LockedIn(s1.place, s.place, Coordinates(landing), LockedCode(landing.kind));
    LockKeepsBoard(s.place, s1.place, Coordinates(landing), LockedCode(landing.kind));
    assert DropDownAction(v, s) == Ok(s1.(place := ScoreAndClear(s1.place)));
  }

  /** DROP_DOWN keeps the invariant and never lowers the score. */
  lemma DropInv(v: Variant, s: Tetris, next: Kind)
    requires s.phase == InControl && Inv(v, s)
    ensures Inv(v, Step(v, s, DropDown, next))
    ensures Step(v, s, DropDown, next).place.score >= s.place.score
  {
    PieceDoesNotStop(v, s);
    DropRule(v, s, next);
    DropKeepsBoard(v, s);
    NewRoundInv(v, DropDownAction(v, s).value, next);
  }

  /** With the new piece drawn from the seven kinds, every event keeps the
      invariant, except a rotation in the source as written, which may stop
      the machine on a missing row; only RESTART_GAME lowers the score. The
      source as written can also stop on a spawn key of 7 or 8, which `next`
      cannot express (`Findings.SpawnDrawCanFail`). */
  lemma StepInv(v: Variant, s: Tetris, e: Event, next: Kind)
    requires Inv(v, s)
    ensures var r := Step(v, s, e, next);
      && (Inv(v, r) || (v == AsWritten && s.phase == InControl && e == RotateKey && r.phase == Halted(MissingRow)))
      && (e != RestartGame ==> r.place.score >= s.place.score)
  {
    match s.phase
    case NewGame =>
      if e == GameStart {
        assert Step(v, s, e, next) == Settle(s, NewRound(v, s, next));
        NewRoundInv(v, s, next);
      }
    case GameOver =>
    case InControl =>
      match e
      case Tick => TickInv(v, s, next);
      case DropDown => DropInv(v, s, next);
      case RotateKey => MoveInv(v, s, e, next);
      case MoveLeftKey => MoveInv(v, s, e, next);
      case MoveRightKey => MoveInv(v, s, e, next);
      case _ =>
  }

  /** The state after a sequence of events; `kinds[i]` is the kind drawn if
      event `i` enters New Round, always one of the seven kinds. */
  function Run(v: Variant, s: Tetris, es: seq<Event>, kinds: seq<Kind>): (r: Tetris)
    requires |kinds| == |es|
    requires Inv(v, s)
    requires v == Corrected || RotateKey !in es
    ensures Inv(v, r) && !r.phase.Halted?
    ensures RestartGame !in es ==> r.place.score >= s.place.score
    decreases |es|
  {
    if |es| == 0 then s
    else
      StepInv(v, s, es[0], kinds[0]);
      Run(v, Step(v, s, es[0], kinds[0]), es[1..], kinds[1..])
  }

  /** The corrected machine, started on a board of at least 4 rows and 7
      columns, never stops on an exception, whatever the events and the
      seven-kind draws. Over the same seven-kind draws, the source as written
      does not stop either as long as no ROTATE arrives; its own draw of
      keys 7 and 8 does stop it (`Findings.SpawnDrawCanFail`). */
  lemma NeverHalts(v: Variant, h: nat, w: nat, es: seq<Event>, kinds: seq<Kind>)
    requires h >= 4 && w >= 7 && |kinds| == |es|
    requires v == Corrected || RotateKey !in es
    ensures Inv(v, Init(h, w))
    ensures !Run(v, Init(h, w), es, kinds).phase.Halted?
  {
    InitInv(v, h, w);
  }
}

/** Three places where the source does something its authors evidently did
    not intend. Each is modelled as written, with an input that shows the
    discrepancy, next to the corrected behaviour the rest of the model uses. */
module Findings {
  import opened Types
  import opened Results
  import opened Matrices
  import opened Pieces
  import opened Rows
  import opened Places
  import opened Machine
  import opened Rules
  import opened MachineSafety

  // ------------------------------------------------ 1. the spawn draw

  /** The keys `PieceMap` registers: the seven tetrominoes, then the two
      face pieces of the start and end screens. */
  const PieceMapKeys: seq<nat> := [0, 1, 2, 3, 4, 5, 6, 98, 99]

  /** The tetromino class registered under a key below 7. */
  function KindOfKey(key: nat): (k: Kind)
    requires key < 7
    ensures KindIndex(k) == key
  {
    match key
    case 0 => I
    case 1 => J
    case 2 => L
    case 3 => O
    case 4 => S
    case 5 => T
    case _ => Z
  }

  /** Keys and kinds correspond one to one. */
  lemma KindKeyRoundTrip(k: Kind)
    ensures KindIndex(k) < 7 && KindOfKey(KindIndex(k)) == k
  {
  }

  /** 'generateNewPiece' as written: `Math.floor(Math.random() * n)` with
      `n` the number of map keys (9) draws `key` from 0..8, and
      `new PieceMap[key]()` throws when the map holds no class under `key`.
      The random draw is the parameter. */
  function GenerateNewPieceAsWritten(key: nat): (r: Result<Piece>)
    requires key < |PieceMapKeys|
    ensures r.Ok? <==> key in PieceMapKeys
    ensures r.Fail? ==> r.fault == NotAConstructor
    ensures r.Ok? ==> KindIndex(r.value.kind) == key && r.value == NewPiece(r.value.kind)
  {
    if key < 7 then Ok(NewPiece(KindOfKey(key))) else Fail(NotAConstructor)
  }

  /** Two of the nine draws, 7 and 8, name no class: entering New Round
      with either stops the machine. */
  lemma SpawnDrawCanFail()
    ensures 7 < |PieceMapKeys| && GenerateNewPieceAsWritten(7) == Fail(NotAConstructor)
    ensures 8 < |PieceMapKeys| && GenerateNewPieceAsWritten(8) == Fail(NotAConstructor)
  {
    assert 7 !in PieceMapKeys && 8 !in PieceMapKeys;
  }

  /** 'generateNewPiece' drawing over the seven tetromino keys only: every
      draw builds a four-cell piece at the spawn anchor. */
  function GenerateNewPiece(key: nat): (r: Piece)
    requires key < 7
    ensures KindIndex(r.kind) == key && r == NewPiece(r.kind)
    ensures IsMatrix(r.matrix) && FilledCount(r.matrix) == 4
    ensures r.x == SpawnX && r.y == SpawnY && r.history == [] && r.controls == []
  {
    ShapesAreTetrominoes(KindOfKey(key));
    NewPiece(KindOfKey(key))
  }

  /** Every kind is drawn by exactly one key, so the machine's choice of
      kind (`next` in `Step`) ranges over exactly the pieces the corrected
      draw can build. */
  lemma EveryKindDrawn(k: Kind)
    ensures exists key :: 0 <= key < 7 && GenerateNewPiece(key) == NewPiece(k)
    ensures forall key :: 0 <= key < 7 && GenerateNewPiece(key) == NewPiece(k) ==> key == KindIndex(k)
  {
    KindKeyRoundTrip(k);
    assert GenerateNewPiece(KindIndex(k)) == NewPiece(k);
  }

  // ------------------------------------- 2. rotating across the floor

  /** As written, 'is out of Border' tests the left and right sides only.
      A rotation that carries a cell below the last row, onto no locked
      cell, is accepted; 'renderPiece' then writes into a row the grid does
      not have, and the machine stops with a TypeError. */
  lemma RotateAcrossFloorHalts(s: Tetris, next: Kind)
    requires Inv(AsWritten, s) && s.phase == InControl
    requires !Rejected(AsWritten, s.place, Coordinates(RotatePiece(s.piece)))
    requires exists k :: 0 <= k < |Coordinates(RotatePiece(s.piece))| && Coordinates(RotatePiece(s.piece))[k].row >= s.place.height
    ensures Step(AsWritten, s, RotateKey, next).phase == Halted(MissingRow)
  {
    MoveAcceptedRule(AsWritten, s, RotateKey, next);
  }

  /** With the bottom added to the border test, the same rotation is
      rejected: the piece keeps its shape and position, only the control
      log records the attempt, and the machine waits in Control. */
  lemma RotateAcrossFloorReverts(s: Tetris, next: Kind)
    requires Inv(Corrected, s) && s.phase == InControl
    requires exists k :: 0 <= k < |Coordinates(RotatePiece(s.piece))| && Coordinates(RotatePiece(s.piece))[k].row >= s.place.height
    ensures var r := Step(Corrected, s, RotateKey, next);
      && r.phase == InControl
      && r.piece == s.piece.(controls := s.piece.controls + [ControlRecord(Rotate, s.piece.kind)])
      && Inv(Corrected, r)
  {
    var cells := Coordinates(RotatePiece(s.piece));
    var k :| 0 <= k < |cells| && cells[k].row >= s.place.height;
    assert Outside(Corrected, cells[k], s.place.width, s.place.height);
    MoveRejectedRule(Corrected, s, RotateKey, next);
    MoveInv(Corrected, s, RotateKey, next);
  }

  /** A horizontal I piece whose filled row is row 3, the bottom row of a
      4-row board. */
  const FlatI: Piece := Piece(I, [[0, 0, 0, 0], [1, 1, 1, 1], [0, 0, 0, 0], [0, 0, 0, 0]], 0, 2, [], [])

  /** The shape and anchor of the flat I after a quarter turn: the vertical
      I in column 2, rows 2 to 5. */
  const UpI: Piece := Piece(I, [[0, 0, 1, 0], [0, 0, 1, 0], [0, 0, 1, 0], [0, 0, 1, 0]], 0, 2, [], [])

  lemma FlatIRotates(p: Piece)
    requires p == FlatI
    ensures Coordinates(RotatePiece(p)) == Coordinates(UpI)
  {
    var m := p.matrix;
    var r := RotatePiece(p).matrix;
    assert forall i, j :: 0 <= i < 4 && 0 <= j < 4 ==> r[j][3 - i] == m[i][j];
    forall j | 0 <= j < 4
      ensures r[j] == UpI.matrix[j]
    {
      assert r[j][0] == m[3][j] && r[j][1] == m[2][j] && r[j][2] == m[1][j] && r[j][3] == m[0][j];
    }
    SameCells(RotatePiece(p), UpI);
  }

  lemma FlatICells()
    ensures Coordinates(FlatI) == [Cell(3, 0), Cell(3, 1), Cell(3, 2), Cell(3, 3)]
    ensures Coordinates(UpI) == [Cell(2, 2), Cell(3, 2), Cell(4, 2), Cell(5, 2)]
  {
  }

  /** A playable piece on existing rows and on no locked cell, drawn on a
      sound board, gives a state satisfying the invariant in either
      reading. */
  lemma DrawnInv(v: Variant, pl: Place, p: Piece)
    requires BoardOk(pl) && Playable(p) && p.y >= 0
    requires RowsPresent(pl.staticPlace, Coordinates(p))
    requires forall k :: 0 <= k < |Coordinates(p)| ==> !Hits(pl.staticPlace, Coordinates(p)[k])
    ensures RenderPiece(Tetris(InControl, pl, p)).Ok?
    ensures Inv(v, RenderPiece(Tetris(InControl, pl, p)).value)
  {
    var r := RenderPiece(Tetris(InControl, pl, p)).value;
    PaintedKeepsSize(r.place.rendered, pl.staticPlace, Coordinates(p), MovingCode(p.kind), pl.height, pl.width);
    if v == AsWritten {
      DrawnPieceNoCollision(r.place, p);
    }
  }

  /** A sound 4 by 7 board with nothing locked: the examples below start
      from any such board, the one `new Place(4, 7)` builds among them. */
  predicate EmptyBoard(pl: Place) {
    && BoardOk(pl) && pl.height == 4 && pl.width == 7
    && forall i, j :: 0 <= i < 4 && 0 <= j < 7 ==> pl.staticPlace[i][j] == 0
  }

  /** The constructor's 4 by 7 board is one the examples start from. */
  lemma NewBoardEmpty()
    ensures EmptyBoard(NewPlace(4, 7))
  {
  }

  /** The flat I drawn on the empty 4 by 7 board `pl` satisfies the
      invariant in both readings. */
  lemma FloorStateInv(pl: Place)
    requires EmptyBoard(pl)
    ensures RenderPiece(Tetris(InControl, pl, FlatI)).Ok?
    ensures Inv(AsWritten, RenderPiece(Tetris(InControl, pl, FlatI)).value)
    ensures Inv(Corrected, RenderPiece(Tetris(InControl, pl, FlatI)).value)
  {
    FlatIOnFloor(pl);
    DrawnInv(AsWritten, pl, FlatI);
    DrawnInv(Corrected, pl, FlatI);
  }

  /** The flat I is playable and lies on free cells of the bottom row. */
  lemma FlatIOnFloor(pl: Place)
    requires EmptyBoard(pl)
    ensures Playable(FlatI) && RowsPresent(pl.staticPlace, Coordinates(FlatI))
    ensures forall k :: 0 <= k < |Coordinates(FlatI)| ==> !Hits(pl.staticPlace, Coordinates(FlatI)[k])
  {
    FlatIPlayable();
    FlatICells();
    FreeBottomRow(pl, Coordinates(FlatI));
  }

  lemma FlatIPlayable()
    ensures Playable(FlatI)
  {
    assert FilledCount(FlatI.matrix) == 4;
  }

  /** The four cells of the bottom row under the flat I are free on an
      empty board. */
  lemma FreeBottomRow(pl: Place, cells: seq<Cell>)
    requires EmptyBoard(pl)
    requires cells == [Cell(3, 0), Cell(3, 1), Cell(3, 2), Cell(3, 3)]
    ensures RowsPresent(pl.staticPlace, cells)
    ensures forall k :: 0 <= k < |cells| ==> !Hits(pl.staticPlace, cells[k])
  {
    forall k | 0 <= k < |cells|
      ensures 0 <= cells[k].row < |pl.staticPlace| && !Hits(pl.staticPlace, cells[k])
    {
      assert k == 0 || k == 1 || k == 2 || k == 3;
    }
  }

  /** Column 2 of the drawn board: empty in row 2, the moving I in row 3. */
  lemma FloorColumnTwo(pl: Place)
    requires EmptyBoard(pl)
    ensures RenderPiece(Tetris(InControl, pl, FlatI)).Ok?
    ensures var r := RenderPiece(Tetris(InControl, pl, FlatI)).value.place.rendered;
      |r| == 4 && |r[2]| == 7 && |r[3]| == 7 && r[2][2] == 0 && r[3][2] == MovingCode(I)
  {
    FlatIOnFloor(pl);
    FlatICells();
    var r := RenderPiece(Tetris(InControl, pl, FlatI)).value.place.rendered;
    PaintedKeepsSize(r, pl.staticPlace, Coordinates(FlatI), MovingCode(I), 4, 7);
    assert Cell(2, 2) !in Coordinates(FlatI) && Cell(3, 2) in Coordinates(FlatI);
  }

  /** On a 4 by 7 board whose rendered column 2 holds no locked entry in
      rows 2 and 3, the as-written guards accept the vertical I there. */
  lemma ColumnTwoFree(pl: Place, cells: seq<Cell>)
    requires cells == [Cell(2, 2), Cell(3, 2), Cell(4, 2), Cell(5, 2)]
    requires pl.height == 4 && pl.width == 7
    requires |pl.rendered| == 4 && |pl.rendered[2]| == 7 && |pl.rendered[3]| == 7
    requires pl.rendered[2][2] <= LockedAbove && pl.rendered[3][2] <= LockedAbove
    ensures !Rejected(AsWritten, pl, cells)
  {
    forall k | 0 <= k < |cells|
      ensures !Hits(pl.rendered, cells[k]) && !Outside(AsWritten, cells[k], 7, 4)
    {
      assert k == 0 || k == 1 || k == 2 || k == 3;
    }
  }

  /** The as-written guards let the quarter turn of the flat I through
      although it reaches rows 4 and 5 of the 4-row board. */
  lemma FloorRotationAccepted(pl: Place)
    requires EmptyBoard(pl)
    ensures RenderPiece(Tetris(InControl, pl, FlatI)).Ok?
    ensures var s := RenderPiece(Tetris(InControl, pl, FlatI)).value;
      && !Rejected(AsWritten, s.place, Coordinates(UpI))
      && Coordinates(UpI)[2].row >= s.place.height
  {
    FloorColumnTwo(pl);
    FlatICells();
    ColumnTwoFree(RenderPiece(Tetris(InControl, pl, FlatI)).value.place, Coordinates(UpI));
  }

  /** On the empty 4 by 7 board, the flat I lying on the floor satisfies
      the invariant in both readings; ROTATE stops the source as written
      and is refused by the corrected border test. */
  lemma RotateAcrossFloorExample(pl: Place, next: Kind)
    requires EmptyBoard(pl)
    ensures RenderPiece(Tetris(InControl, pl, FlatI)).Ok?
    ensures var s := RenderPiece(Tetris(InControl, pl, FlatI)).value;
      && Inv(AsWritten, s) && Inv(Corrected, s)
      && Step(AsWritten, s, RotateKey, next).phase == Halted(MissingRow)
      && Step(Corrected, s, RotateKey, next).phase == InControl
  {
    FloorStateInv(pl);
    FloorRotationAccepted(pl);
    var s := RenderPiece(Tetris(InControl, pl, FlatI)).value;
    FlatIRotates(s.piece);
    assert Coordinates(RotatePiece(s.piece))[2].row >= s.place.height;
    RotateAcrossFloorHalts(s, next);
    RotateAcrossFloorReverts(s, next);
  }

  // --------------------------- 3. the game-over test after a lock

  /** As written, the New Round that follows a lock tests the fresh piece
      against the rendered grid, which was last drawn before the lock: it
      shows the board as it was, with the piece just locked in its moving
      code. Whatever was locked or cleared in this step is not seen. */
  lemma LockThenSpawnAsWritten(s: Tetris, next: Kind)
    requires Inv(AsWritten, s) && s.phase == InControl
    requires Stops(AsWritten, s.place, Coordinates(MoveDown(s.piece)))
    ensures var r := Step(AsWritten, s, Tick, next); var cells := Coordinates(NewPiece(next));
      && (r.phase == GameOver <==> exists k :: 0 <= k < |cells| && Hits(s.place.rendered, cells[k]))
      && (r.phase != GameOver ==> r.phase == InControl && r.piece == NewPiece(next))
  {
    TickRule(AsWritten, s, next);
    var r := Step(AsWritten, s, Tick, next);
    var back := s.piece.(controls := s.piece.controls + [ControlRecord(Down, s.piece.kind)]);
    var pl1: Place :| && LockedIn(pl1, s.place, Coordinates(s.piece), LockedCode(s.piece.kind))
                      && r == Settle(s, NewRound(AsWritten, Tetris(InControl, ScoreAndClear(pl1), back), next));
    var t := Tetris(InControl, ScoreAndClear(pl1), back);
    LockKeepsBoard(s.place, pl1, Coordinates(s.piece), LockedCode(s.piece.kind));
    assert t.place.rendered == s.place.rendered by {
      PaintedKeepsSize(pl1.staticPlace, s.place.staticPlace, Coordinates(s.piece), LockedCode(s.piece.kind), s.place.height, s.place.width);
      ScoreAndClearRule(pl1);
    }
    SpawnRule(AsWritten, t, next);
    assert r == NewRound(AsWritten, t, next).value;
  }

  /** Painting the same cells with the same code over the same grid gives
      one grid. */
  lemma PaintedUnique(r1: Grid, r2: Grid, g: Grid, cells: seq<Cell>, code: int)
    requires Painted(r1, g, cells, code) && Painted(r2, g, cells, code)
    ensures r1 == r2
  {
    forall i | 0 <= i < |g|
      ensures r1[i] == r2[i]
    {
      assert forall j :: 0 <= j < |g[i]| ==> r1[i][j] == r2[i][j];
    }
  }

  /** The static grid after `cells` are locked with `code` and the line
      check has run. */
  function SettledGrid(pl: Place, cells: seq<Cell>, code: int): Grid
    requires RowsPresent(pl.staticPlace, cells)
  {
    ScoreAndClear(SetMovingPieceStatic(pl, cells, code).value).staticPlace
  }

  /** Any board with the cells locked in settles to that grid: the stored
      out-of-range amount plays no part in the line check. */
  lemma LockedInSettles(pl1: Place, pl: Place, cells: seq<Cell>, code: int)
    requires LockedIn(pl1, pl, cells, code) && RowsPresent(pl.staticPlace, cells)
    ensures ScoreAndClear(pl1).staticPlace == SettledGrid(pl, cells, code)
  {
    var q := SetMovingPieceStatic(pl, cells, code).value;
    PaintedUnique(pl1.staticPlace, q.staticPlace, pl.staticPlace, cells, code);
    assert pl1 == q.(outRangeLength := pl1.outRangeLength);
  }

  /** With collisions read from the static grid, the test sees the board
      after the lock and the line check. */
  lemma LockThenSpawn(s: Tetris, next: Kind)
    requires Inv(Corrected, s) && s.phase == InControl
    requires Stops(Corrected, s.place, Coordinates(MoveDown(s.piece)))
    ensures var r := Step(Corrected, s, Tick, next); var cells := Coordinates(NewPiece(next));
      var settled := SettledGrid(s.place, Coordinates(s.piece), LockedCode(s.piece.kind));
      && (r.phase == GameOver <==> exists k :: 0 <= k < |cells| && Hits(settled, cells[k]))
      && (r.phase != GameOver ==> r.phase == InControl && r.piece == NewPiece(next))
  {
    TickRule(Corrected, s, next);
    var r := Step(Corrected, s, Tick, next);
    var back := s.piece.(controls := s.piece.controls + [ControlRecord(Down, s.piece.kind)]);
    var pl1: Place :| && LockedIn(pl1, s.place, Coordinates(s.piece), LockedCode(s.piece.kind))
                      && r == Settle(s, NewRound(Corrected, Tetris(InControl, ScoreAndClear(pl1), back), next));
    var t := Tetris(InControl, ScoreAndClear(pl1), back);
    LockKeepsBoard(s.place, pl1, Coordinates(s.piece), LockedCode(s.piece.kind));
    LockedInSettles(pl1, s.place, Coordinates(s.piece), LockedCode(s.piece.kind));
    SpawnRule(Corrected, t, next);
    assert r == NewRound(Corrected, t, next).value;
  }

  /** A grid whose first column is empty has no full row from row `i` on. */
  lemma {:induction false} NoFullRows(g: Grid, i: nat)
    requires i <= |g|
    requires forall y :: 0 <= y < |g| ==> |g[y]| > 0 && g[y][0] == 0
    ensures FullRowsFrom(g, i) == []
    decreases |g| - i
  {
    if i < |g| {
      assert !IsFull(g[i]) by {
        assert g[i][0] <= LockedAbove;
      }
      NoFullRows(g, i + 1);
    }
  }

  /** Two locked cells of an O piece in row 2, columns 4 and 5: the ledge
      the example's O piece rests on. */
  const Ledge: seq<Cell> := [Cell(2, 4), Cell(2, 5)]

  /** The empty 4 by 7 board `pl` with the ledge locked in. */
  function LedgeBoard(pl: Place): (r: Place)
    requires EmptyBoard(pl)
    ensures BoardOk(r) && r == pl.(staticPlace := r.staticPlace)
    ensures Painted(r.staticPlace, pl.staticPlace, Ledge, LockedCode(O))
  {
    var r := SetMovingPieceStatic(pl, Ledge, LockedCode(O)).value;
    PaintedKeepsSize(r.staticPlace, pl.staticPlace, Ledge, LockedCode(O), 4, 7);
    r
  }

  /** The cells of a new O piece, and one row lower. */
  lemma OCells()
    ensures Coordinates(NewPiece(O)) == [Cell(0, 4), Cell(0, 5), Cell(1, 4), Cell(1, 5)]
    ensures Coordinates(MoveDown(NewPiece(O))) == [Cell(1, 4), Cell(1, 5), Cell(2, 4), Cell(2, 5)]
    ensures Playable(NewPiece(O))
  {
    ShapesAreTetrominoes(O);
  }

  /** A new O piece drawn above the ledge satisfies the invariant in both
      readings. */
  lemma LedgeInv(pl: Place)
    requires EmptyBoard(pl)
    ensures RenderPiece(Tetris(InControl, LedgeBoard(pl), NewPiece(O))).Ok?
    ensures Inv(AsWritten, RenderPiece(Tetris(InControl, LedgeBoard(pl), NewPiece(O))).value)
    ensures Inv(Corrected, RenderPiece(Tetris(InControl, LedgeBoard(pl), NewPiece(O))).value)
  {
    var b := LedgeBoard(pl);
    var cells := Coordinates(NewPiece(O));
    OCells();
    forall k | 0 <= k < |cells|
      ensures !Hits(b.staticPlace, cells[k])
    {
      assert cells[k] !in Ledge;
    }
    DrawnInv(AsWritten, b, NewPiece(O));
    DrawnInv(Corrected, b, NewPiece(O));
  }

  /** One row down, the O piece meets the ledge in either reading. */
  lemma LedgeStops(pl: Place, v: Variant)
    requires EmptyBoard(pl)
    ensures RenderPiece(Tetris(InControl, LedgeBoard(pl), NewPiece(O))).Ok?
    ensures var s := RenderPiece(Tetris(InControl, LedgeBoard(pl), NewPiece(O))).value;
      Stops(v, s.place, Coordinates(MoveDown(s.piece)))
  {
    LedgeInv(pl);
    OCells();
    var s := RenderPiece(Tetris(InControl, LedgeBoard(pl), NewPiece(O))).value;
    var cells := Coordinates(MoveDown(s.piece));
    assert Cell(2, 4) in Ledge && Cell(2, 4) !in Coordinates(s.piece);
    assert Hits(CollisionGrid(v, s.place), cells[2]);
  }

  /** The new O piece's cells lie on the ledge board's rows. */
  lemma LedgeRowsPresent(pl: Place)
    requires EmptyBoard(pl)
    ensures RowsPresent(LedgeBoard(pl).staticPlace, Coordinates(NewPiece(O)))
  {
    OCells();
  }

  /** The O piece locked above the ledge: column 0 stays empty. */
  lemma LedgeColumnZero(pl: Place)
    requires EmptyBoard(pl)
    ensures RowsPresent(LedgeBoard(pl).staticPlace, Coordinates(NewPiece(O)))
    ensures var g := SetMovingPieceStatic(LedgeBoard(pl), Coordinates(NewPiece(O)), LockedCode(O)).value.staticPlace;
      forall y :: 0 <= y < |g| ==> |g[y]| > 0 && g[y][0] == 0
  {
    LedgeRowsPresent(pl);
    var b := LedgeBoard(pl);
    var cells := Coordinates(NewPiece(O));
    var g := SetMovingPieceStatic(b, cells, LockedCode(O)).value.staticPlace;
    PaintedKeepsSize(g, b.staticPlace, cells, LockedCode(O), 4, 7);
    assert forall y :: Cell(y, 0) !in cells by {
      OCells();
    }
    forall y | 0 <= y < |g|
      ensures |g[y]| > 0 && g[y][0] == 0
    {
      assert Cell(y, 0) !in Ledge;
    }
  }

  /** The O piece locked above the ledge: its top-left cell holds its
      locked code. */
  lemma LedgeCorner(pl: Place)
    requires EmptyBoard(pl)
    ensures RowsPresent(LedgeBoard(pl).staticPlace, Coordinates(NewPiece(O)))
    ensures var g := SetMovingPieceStatic(LedgeBoard(pl), Coordinates(NewPiece(O)), LockedCode(O)).value.staticPlace;
      |g| == 4 && |g[0]| == 7 && g[0][4] == LockedCode(O)
  {
    LedgeRowsPresent(pl);
    var b := LedgeBoard(pl);
    var cells := Coordinates(NewPiece(O));
    var g := SetMovingPieceStatic(b, cells, LockedCode(O)).value.staticPlace;
    PaintedKeepsSize(g, b.staticPlace, cells, LockedCode(O), 4, 7);
    assert Cell(0, 4) in cells by {
      OCells();
    }
  }

  /** With no full row the line check leaves the locked grid as it is, so
      the settled grid holds the O piece's locked cells. */
  lemma LedgeLocks(pl: Place)
    requires EmptyBoard(pl)
    ensures RowsPresent(LedgeBoard(pl).staticPlace, Coordinates(NewPiece(O)))
    ensures Hits(SettledGrid(LedgeBoard(pl), Coordinates(NewPiece(O)), LockedCode(O)), Cell(0, 4))
  {
    LedgeColumnZero(pl);
    LedgeCorner(pl);
    var b := LedgeBoard(pl);
    var pl1 := SetMovingPieceStatic(b, Coordinates(NewPiece(O)), LockedCode(O)).value;
    NoFullRows(pl1.staticPlace, 0);
    PaintedKeepsSize(pl1.staticPlace, b.staticPlace, Coordinates(NewPiece(O)), LockedCode(O), 4, 7);
    ScoreAndClearRule(pl1);
  }

  /** The example state below, as written: the tick locks the O piece and
      the next O piece, spawned on the same cells, is drawn. */
  lemma StaleSpawnAsWritten(pl: Place)
    requires EmptyBoard(pl)
    ensures RenderPiece(Tetris(InControl, LedgeBoard(pl), NewPiece(O))).Ok?
    ensures Step(AsWritten, RenderPiece(Tetris(InControl, LedgeBoard(pl), NewPiece(O))).value, Tick, O).phase == InControl
  {
    LedgeInv(pl);
    LedgeStops(pl, AsWritten);
    var s := RenderPiece(Tetris(InControl, LedgeBoard(pl), NewPiece(O))).value;
    OwnCellsNoHit(s.place.rendered, s.place.staticPlace, Coordinates(s.piece), MovingCode(O));
    LockThenSpawnAsWritten(s, O);
  }

  /** The example state below, corrected: the next O piece meets the cells
      just locked and the game is over. */
  lemma StaleSpawnCorrected(pl: Place)
    requires EmptyBoard(pl)
    ensures RenderPiece(Tetris(InControl, LedgeBoard(pl), NewPiece(O))).Ok?
    ensures Step(Corrected, RenderPiece(Tetris(InControl, LedgeBoard(pl), NewPiece(O))).value, Tick, O).phase == GameOver
  {
    LedgeInv(pl);
    LedgeStops(pl, Corrected);
    var s := RenderPiece(Tetris(InControl, LedgeBoard(pl), NewPiece(O))).value;
    var cells := Coordinates(NewPiece(O));
    LockThenSpawn(s, O);
    LedgeLocks(pl);
    OCells();
    assert Hits(SettledGrid(s.place, Coordinates(s.piece), LockedCode(O)), cells[0]);
  }

  /** An O piece at its spawn position on a 4 by 7 board, one row above two
      locked cells. On TICK it locks where it is and the next O piece
      spawns on the same four cells. As written the machine does not see
      them and waits in Control with the new piece drawn over locked cells;
      in the corrected reading the game is over. */
  lemma StaleSpawnExample(pl: Place)
    requires EmptyBoard(pl)
    ensures RenderPiece(Tetris(InControl, LedgeBoard(pl), NewPiece(O))).Ok?
    ensures var s := RenderPiece(Tetris(InControl, LedgeBoard(pl), NewPiece(O))).value;
      && Inv(AsWritten, s) && Inv(Corrected, s)
      && Step(AsWritten, s, Tick, O).phase == InControl
      && Step(Corrected, s, Tick, O).phase == GameOver
  {
    LedgeInv(pl);
    StaleSpawnAsWritten(pl);
    StaleSpawnCorrected(pl);
  }
}

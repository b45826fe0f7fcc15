# A verified model of the xstate-tetris engine

This project models the game logic of ZekeGan/xstate-tetris in Dafny:

- the falling piece of `src/utils/Pieces.ts`: shape, anchor, quarter turn, moves, undo history and the shape table;
- the board of `src/utils/Place.ts`: static and rendered grids, the collision test, the out-of-range test, full rows, row clearing and scoring;
- the state machine of `src/tetrisMachine.ts`, as a pure transition function.

Every mutating method of the TypeScript classes becomes a pure function from the old value to the new one.
A JavaScript exception (a write into a missing row, `restoreHistory` on an empty history, `new` of a missing class) becomes a `Result` failure.
In the machine, an exception becomes the absorbing phase `Halted(fault)`.

Modules, in dependency order:

| module | file | models |
|---|---|---|
| `Types`, `Results` | types.dfy, results.dfy | `src/type.ts`; the exceptions as faults |
| `Matrices` | matrices.dfy | `Piece._rotate` and the filled-cell count |
| `Pieces` | pieces.dfy | class `Piece`, the seven `*_Piece` shapes |
| `Rows`, `Scoring` | rows.dfy, scoring.dfy | `checkIsLine` / `cleanLine` row logic; `_calcNormalScore` |
| `Places` | places.dfy | class `Place` |
| `Boundary` | boundary.dfy | the stored out-of-range amount used with `moveAxisByNumber` |
| `Machine` | machine.dfy | the guards, actions and states of `tetrisMachine` |
| `Rules` | rules.dfy | what each transition does, stated on the board and the piece |
| `MachineSafety` | machine_safety.dfy | the invariant kept between events |
| `Findings` | findings.dfy | the three defects below, as written and corrected |

How the machine is read:

- The machine calls methods the classes do not define. The model maps each to the method that exists:
  - `MoveDown`/`MoveRight`/`MoveLeft` → `moveDown`/`moveRight`/`moveLeft`;
  - `getCoordinates()` → the `coordinates` getter;
  - `checkPieceIsAtBottom(c)` → `checkPieceIsOutRange(c, 'bottom')`;
  - `checkPieceIsOutOfBorder(c)` → `checkPieceIsOutRange(c, 'left') || checkPieceIsOutRange(c, 'right')`.
- The machine passes no `pieceCode` to `renderPlace` or `setMovingPieceStatic` (src/tetrisMachine.ts:76, 86, 96 and 100; src/utils/Place.ts:83-94). Read literally, every drawn or locked cell holds `undefined`. Then no cell is ever above 20, so nothing collides (src/utils/Place.ts:102) and no row is ever full (src/utils/Place.ts:125). The model instead draws a moving piece with code 11 + index and locks it with 21 + index. These are the codes `src/utils/getPieceColor.ts` colours. They are the model's reading, not what the code stores.
- `Variant` selects how the guards read the board:
  - `AsWritten` follows the code. The collision guards read the rendered grid, and the border guard looks at left and right only.
  - `Corrected` reads collisions from the static grid and adds the bottom to the border guard.
- A pair `[x, y]` of `CoordinateType` is used everywhere as `[row, column]`. The model's `Cell(row, col)` follows that use.

Other points where the model follows the code closely:

- The history and control logs are never trimmed. Once a log is longer than 10, `unshift()` is called with no argument, which removes nothing (src/utils/Pieces.ts:78-80). So the logs grow by one per move.
- `checkIsPiecesCollide` reads the rendered grid `_place` (src/utils/Place.ts:102).
- A piece that reaches the bottom is handled like a collision. `setPieceStatic` restores the previous position and locks the piece there (src/tetrisMachine.ts:83-87).
- The next piece is drawn when New Round is entered (src/tetrisMachine.ts:192-200).

## Model

| member | source | states |
|---|---|---|
| Matrices.RotateMatrix | src/utils/Pieces.ts:55-70 | an R×C matrix becomes a C×R matrix whose entry (j, R−1−i) is the original entry (i, j) |
| Matrices.RotateKeepsCount | src/utils/Pieces.ts:55-70 | a quarter turn keeps the number of filled entries |
| Matrices.RotateTwice | src/utils/Pieces.ts:55-70 | two quarter turns map entry (i, j) to (R−1−i, C−1−j) and keep the dimensions |
| Matrices.RotateFourTimes | src/utils/Pieces.ts:55-70 | four quarter turns give back the original matrix |
| Matrices.RotateKeepsSquare | src/utils/Pieces.ts:55-70 | a square matrix stays square, of the same size |
| Pieces.ShapeFilledCount | src/utils/Pieces.ts:143-226 | every tetromino shape has exactly four filled entries |
| Pieces.ShapesAreTetrominoes | src/utils/Pieces.ts:143-226 | every shape is square (2 to 4 wide) with four filled entries; a new piece is anchored at column 4, row 0 with empty logs, the initialisers of lines 13-14 |
| Pieces.MatrixCellsSpec | src/utils/Pieces.ts:25-44 | the projection lists a cell exactly when it is under the matrix at an entry of the wanted filled-ness, in row-major order |
| Pieces.CoordinatesAreFilledCells | src/utils/Pieces.ts:25-34 | `coordinates` lists exactly the non-zero entries offset by the anchor, in strictly increasing row-major order |
| Pieces.CoordinatesPartitionBox | src/utils/Pieces.ts:25-44 | `coordinates` and `coordinateOfEmptyMatrix` are disjoint and together cover the piece's box |
| Pieces.CoordinateCounts | src/utils/Pieces.ts:25-44 | there are as many coordinates as filled entries; the two projections together have rows × columns cells |
| Pieces.CoordinatesShift | src/utils/Pieces.ts:25-34 | moving the anchor by (dy, dx) moves every coordinate by (dy, dx) |
| Pieces.Push | src/utils/Pieces.ts:72-91 | the push followed by the length-10 trim appends exactly one entry: `unshift()` removes nothing |
| Pieces.Save | src/utils/Pieces.ts:72-91 | saving appends the pre-move snapshot to the history and the (control, kind) record to the control log, and changes nothing else |
| Pieces.RotatePiece | src/utils/Pieces.ts:97-101 | rotate keeps the anchor and kind, keeps the filled count, and records one snapshot and one control |
| Pieces.MoveRight | src/utils/Pieces.ts:105-109 | the column anchor grows by one; row, shape and kind stay; one record each |
| Pieces.MoveLeft | src/utils/Pieces.ts:113-117 | the column anchor shrinks by one; row, shape and kind stay; one record each |
| Pieces.MoveDown | src/utils/Pieces.ts:121-125 | the row anchor grows by one; column, shape and kind stay; one record each |
| Pieces.ApplyRecordsOnce | src/utils/Pieces.ts:72-125 | each of the four moves appends exactly the pre-move snapshot and its own control record |
| Pieces.RestoreHistory | src/utils/Pieces.ts:127-135 | fails with EmptyHistory exactly when the history is empty; otherwise pops the newest snapshot into shape and anchor and keeps the control log |
| Pieces.RestoreUndoesApply | src/utils/Pieces.ts:97-135 | restoring right after any move gives back the exact prior piece, except that the control log keeps the move's entry |
| Pieces.MoveAxisByNumber | src/utils/Pieces.ts:137-140 | subtracts n from the chosen anchor coordinate only, and records nothing |
| Places.NewPlace | src/utils/Place.ts:30-39 | both grids have h rows of w zeros; nothing listed, no score, no stored amount |
| Places.PaintSpec | src/utils/Place.ts:83-95 | the write loop succeeds exactly when every row exists; it then writes the code at exactly the listed cells |
| Places.RenderPlace | src/utils/Place.ts:83-89 | the rendered grid becomes the static grid with the code at the listed cells; all else stays; a missing row fails with MissingRow |
| Places.SetMovingPieceStatic | src/utils/Place.ts:91-95 | the static grid gets the code at the listed cells; all else stays; a missing row fails with MissingRow |
| Places.CheckIsPiecesCollide | src/utils/Place.ts:98-108 | true exactly when some cell is on the rendered grid and holds a code above 20; cells off the grid never collide |
| Places.OutListSpec | src/utils/Place.ts:41-67 | a value is pushed exactly when some cell violates the side and has that measure |
| Places.MinOf | src/utils/Place.ts:72 | `Math.min` of a non-empty list is an element no greater than any |
| Places.MaxOf | src/utils/Place.ts:73-74 | `Math.max` of a non-empty list is an element no less than any |
| Places.GetPieceBorderInfo | src/utils/Place.ts:41-81 | out exactly when some cell is past the side; amount 0 when not out; when out, the least column (left) or the greatest excess over the edge (right, bottom), reached by some cell |
| Places.CheckPieceIsOutRange | src/utils/Place.ts:110-121 | reports whether some cell is past the side, stores the amount (0 when not out), changes nothing else |
| Places.CheckIsLine | src/utils/Place.ts:123-131 | appends, after the old list and without clearing it, exactly the indices `Rows.FullRows` lists (every full static row, ascending); a row already listed is appended again; the result is true exactly when the list is non-empty |
| Places.CheckIsLineRepeatsListed | src/utils/Place.ts:123-131 | the list is not cleared first: a full row already listed appears both among the old entries and again among the appended ones |
| Places.CleanLine | src/utils/Place.ts:134-142 | only the static grid changes, and the row list is emptied |
| Places.CleanLineCompacts | src/utils/Place.ts:134-142 | for ascending existing rows: size kept; one zero row per listed row on top, then the unlisted rows in order; rows below the last listed are untouched |
| Places.CalcScore | src/utils/Place.ts:173-177 | the score grows by the run-by-run sum, at least 100 per listed row; `lineCount` is the longest run (0 for none), between 1 and the number of rows |
| Places.CalcTSpineScore | src/utils/Place.ts:179-181 | adds exactly 500 and changes nothing else |
| Rows.FullRowsSpec | src/utils/Place.ts:124-128 | a row index is listed exactly when that row is full; the list is strictly ascending and within the board |
| Rows.ClearStepSurvivors | src/utils/Place.ts:136-139 | one splice-and-unshift step keeps the surviving rows: a zero row, the rows above the removed one, the survivors below it |
| Rows.ClearRowsShape | src/utils/Place.ts:134-142 | clearing an ascending list leaves one zero row per listed row followed by the unlisted rows in order |
| Rows.ClearRowsKeepsSize | src/utils/Place.ts:134-142 | clearing existing rows keeps the height and every row's width |
| Rows.ClearRowsTopAndBottom | src/utils/Place.ts:134-142 | after clearing, the top rows are zero and every row below the last listed index is untouched |
| Scoring.Longest | src/utils/Place.ts:169 | `Math.max` of the run lengths: no run is longer, and it is one of them |
| Scoring.RunScoreStep | src/utils/Place.ts:154-157 | one more row in a run adds 100 plus 20 per earlier row of the run |
| Scoring.LastRowClosesRun | src/utils/Place.ts:155 | the comparison past the last index fails, so the last row always closes a run |
| Scoring.RowPointsByRuns | src/utils/Place.ts:144-171 | the row-by-row points equal the sum over maximal runs of 100·L + 10·L·(L−1); the runs cover every row once |
| Scoring.StreakBonus | src/utils/Place.ts:153-165 | every row is worth at least 100; the total is exactly 100 per row iff no two listed indices are consecutive |
| Scoring.SingleRun | src/utils/Place.ts:144-171 | consecutive indices form one run: score 100·L + 10·L·(L−1) and line count L |
| Scoring.CalcNormalScore | src/utils/Place.ts:144-171 | the loop returns (0, 0) for no rows, otherwise the run-by-run sum and the longest run |
| Boundary.ShiftedCoordinates | src/utils/Pieces.ts:137-140 | after the shift, a cell is covered exactly when the cell n further along the axis was covered before |
| Boundary.ShiftedCellsInside | src/utils/Place.ts:71-75 | moving the cells back by the stored amount leaves none past the side and puts one on its edge |
| Boundary.CorrectionLandsOnBorder | src/utils/Place.ts:110-121 | when a piece is out on a side, `moveAxisByNumber` by the stored amount leaves no cell past it and one cell on the edge |
| Machine.MovingCode | src/utils/getPieceColor.ts:5-37 | the drawing code of a moving piece is positive and never counts as locked |
| Machine.LockedCode | src/utils/getPieceColor.ts:5-37 | the code of a locked piece is always above 20 |
| Machine.Collides | src/tetrisMachine.ts:113-114 | 'is collide piece' / 'is at Top' hold exactly when a cell hits a locked code of the grid the variant reads |
| Machine.OutOfBorder | src/tetrisMachine.ts:116-117 | 'is out of Border' holds exactly when some cell is left or right of the board (or below, corrected); only the stored amount changes |
| Machine.RenderPiece | src/tetrisMachine.ts:98-101 | 'renderPiece' succeeds exactly when the piece's rows exist and draws it over the static grid in its moving code |
| Machine.DropLoop | src/tetrisMachine.ts:66-72 | the loop keeps shape, column and kind and never moves up |
| Machine.DropLoopSpec | src/tetrisMachine.ts:61-74 | the loop ends at the first piece that stops; if it moved, the newest snapshot is the row above, which did not stop; it moves at least once from a piece that does not stop |
| Machine.Step | src/tetrisMachine.ts:134-249 | a halted machine stays; New Game moves only on GAME_START and Game Over only on RESTART_GAME; New Game is entered only from those |
| Rules.NarrowShapes | src/utils/Pieces.ts:143-226 | no shape fills a fourth column |
| Rules.SpawnCells | src/utils/Pieces.ts:143-226 | a new piece covers rows 0-3 and columns 4-6 only |
| Rules.SpawnRule | src/tetrisMachine.ts:192-200 | New Round never fails on a board of at least 4×7; it ends the game exactly when the new piece hits a locked cell, otherwise draws it and waits in Control |
| Rules.GameStartRule | src/tetrisMachine.ts:134-144 | GAME_START from New Game enters New Round |
| Rules.RestartRule | src/tetrisMachine.ts:242-249 | Game Over ignores every other event; RESTART_GAME installs an all-zero board of the same size with no score and goes to New Game |
| Rules.MoveRejectedRule | src/tetrisMachine.ts:222-233 | a move the guards reject is reverted exactly; the old position is drawn again; only the control log, rendered grid and stored amount change |
| Rules.MoveAcceptedRule | src/tetrisMachine.ts:234-237 | an accepted move is drawn and the machine waits in Control, or halts with MissingRow exactly when the moved piece's rows are missing |
| Rules.MoveRule | src/tetrisMachine.ts:202-239 | ROTATE, MOVE_LEFT and MOVE_RIGHT: both outcomes above; the static grid, score and row list do not change |
| Rules.TickRule | src/tetrisMachine.ts:156-178 | TICK moves the piece down; if it then stops, the piece is locked one row up, the line check runs and New Round follows; otherwise it is drawn and the machine waits |
| Rules.ScoreAndClearRule | src/tetrisMachine.ts:180-191 | Check Is Line leaves the board as is without full rows; otherwise it scores the runs and clears exactly the full rows |
| Rules.DropLanding | src/tetrisMachine.ts:61-75 | the drop loop moves at least once, and restoring its result gives the landing position one row above where it stopped |
| Rules.SetPieceStaticRule | src/tetrisMachine.ts:83-87 | 'setPieceStatic' steps the piece back and locks it at that position in its locked code |
| Rules.LockLandedRule | src/tetrisMachine.ts:74-81 | after the loop the piece is locked at its landing position and the line check runs |
| Rules.LandingReady | src/tetrisMachine.ts:66-76 | the landing position is the restored snapshot and its rows exist |
| Rules.DropActionRule | src/tetrisMachine.ts:61-82 | 'dropDown' succeeds and leaves the piece at the landing row, locked there, with the line check done |
| Rules.DropRule | src/tetrisMachine.ts:216-219 | DROP_DOWN runs 'dropDown' and then New Round |
| MachineSafety.InitInv | src/tetrisMachine.ts:129-134 | the start state is in New Game with no score and satisfies the invariant |
| MachineSafety.DrawnPieceNoCollision | src/utils/Place.ts:98-108 | as written, the drawn piece never collides with itself on the rendered grid |
| MachineSafety.PresentNotBelow | src/utils/Place.ts:60-66 | a piece on existing rows is not past the bottom |
| MachineSafety.NewRoundInv | src/tetrisMachine.ts:192-200 | New Round on a sound board succeeds, keeps the score and reaches a state satisfying the invariant |
| MachineSafety.LockKeepsBoard | src/tetrisMachine.ts:180-191 | locking and the line check keep the board sound and never lower the score |
| MachineSafety.TickInv | src/tetrisMachine.ts:156-191 | TICK keeps the invariant and never lowers the score |
| MachineSafety.MoveInv | src/tetrisMachine.ts:202-239 | moves keep the score and the invariant, except a rotation as written that reaches a missing row and halts |
| MachineSafety.PieceDoesNotStop | src/tetrisMachine.ts:66-69 | in Control the piece does not stop where it is, so the drop loop runs at least once |
| MachineSafety.DropKeepsBoard | src/tetrisMachine.ts:61-82 | 'dropDown' from Control succeeds, keeps the board sound and never lowers the score |
| MachineSafety.DropInv | src/tetrisMachine.ts:216-219 | DROP_DOWN keeps the invariant and never lowers the score |
| MachineSafety.StepInv | src/tetrisMachine.ts:134-249 | with the new piece drawn from the seven kinds, every event keeps the invariant (except the as-written rotation above); only RESTART_GAME lowers the score |
| MachineSafety.Run | src/tetrisMachine.ts:134-249 | with every new piece drawn from the seven kinds, any event sequence (without ROTATE, as written) keeps the invariant and never halts; without RESTART_GAME the score never falls |
| MachineSafety.NeverHalts | src/tetrisMachine.ts:134-249 | started on a 4×7 or larger board and drawing from the seven kinds, the corrected machine never halts whatever events arrive; as written, it never halts on sequences without ROTATE |
| Findings.KindOfKey | src/utils/Pieces.ts:274-281 | keys 0-6 name the seven tetromino classes |
| Findings.KindKeyRoundTrip | src/utils/Pieces.ts:274-281 | kinds and keys 0-6 correspond one to one |
| Findings.GenerateNewPieceAsWritten | src/tetrisMachine.ts:88-92 | the draw builds a piece exactly when the key is a map key, and then the new piece of that kind; otherwise NotAConstructor |
| Findings.SpawnDrawCanFail | src/tetrisMachine.ts:88-92 | draws 7 and 8 fail with NotAConstructor |
| Findings.GenerateNewPiece | src/tetrisMachine.ts:88-92 | drawing over keys 0-6 always builds a four-cell new piece of that key's kind anchored at column 4, row 0 |
| Findings.EveryKindDrawn | src/utils/Pieces.ts:274-284 | every kind is built by exactly one key of the corrected draw |
| Findings.RotateAcrossFloorHalts | src/tetrisMachine.ts:116-117 | as written, a rotation onto free cells that reaches below the last row passes the guards and halts with MissingRow |
| Findings.RotateAcrossFloorReverts | src/tetrisMachine.ts:222-228 | corrected, that rotation is reverted, only the control log records it, and the invariant holds |
| Findings.FlatIRotates | src/utils/Pieces.ts:55-70 | the horizontal I turns into the vertical I in column 2 |
| Findings.RotateAcrossFloorExample | src/tetrisMachine.ts:202-239 | the flat I on the floor of an empty 4×7 board: both readings satisfy the invariant; ROTATE halts as written and keeps Control corrected |
| Findings.LockThenSpawnAsWritten | src/tetrisMachine.ts:122-123 | as written, after a lock the game ends exactly when the new piece hits a locked code of the rendered grid drawn before the lock |
| Findings.LockThenSpawn | src/tetrisMachine.ts:192-200 | corrected, the game ends exactly when the new piece hits the board as settled after the lock and the line check |
| Findings.StaleSpawnExample | src/tetrisMachine.ts:156-200 | an O piece locked at its spawn cells: as written the next O is drawn over it; corrected the game is over |

## Left out

- The `ticksLogic` actor and the SPEEDUP_DOWN/SLOWUP_DOWN forwarding (src/tetrisMachine.ts:25-44,150-155) are timers. TICK is an input event; the speed events leave the state unchanged.
- `Math.random` (src/tetrisMachine.ts:89) is the `next: Kind` parameter of `Machine.Step`, and the `key` parameter of the draw in `Findings`.
- Scoring.CalcNormalScore: points are exact integers, 100 + 20·k for the k-th row of a run. The source adds 0.2 in floating point, so some rows score just under the exact value.
- The `config` constants (`mapWidth`, `mapHeight`, `downSpeed`) cannot be seen. The board size is a parameter. The invariant asks for at least 4 rows and 7 columns, because a new piece covers rows 0-3 and columns 4-6.
- src/App.tsx, src/useTapLongKey.tsx, src/utils/getIsBorder.ts and the colour strings of src/utils/getPieceColor.ts are presentation and input handling.
- `Smile_Piece` and `Dead_Piece` never enter play. Only their map keys 98 and 99 appear, in `Findings.PieceMapKeys`.
- `console.log` (src/tetrisMachine.ts:54) is output only.
- The initial context holds the class `PieceMap[0]`, not a piece. `Machine.Init` holds a new I piece instead; New Round replaces it before any use.
- Places.Paint: a write to a column past a row's end is dropped. JavaScript would lengthen the row. The machine's border guard keeps such columns from being written.
- MachineSafety.NeverHalts: it is stated only for pieces drawn from the seven kinds. The source draws a key from 0 to 8 and stops on keys 7 and 8 (src/tetrisMachine.ts:88-92; `Findings.SpawnDrawCanFail`). For the source as written, it is also stated only for event sequences without ROTATE, because such a rotation can halt the machine (see Findings).
- MachineSafety.StepInv: the drawn piece `next` is always one of the seven kinds. So for the source as written, the lemma does not cover the stop on spawn keys 7 and 8 (src/tetrisMachine.ts:88-92). That stop can follow GAME_START, a lock or DROP_DOWN, and `Findings.SpawnDrawCanFail` shows it.
- MachineSafety.Run: every entry of `kinds` is one of the seven kinds. So for the source as written, the run does not cover the stop on spawn keys 7 and 8 (src/tetrisMachine.ts:88-92; `Findings.SpawnDrawCanFail`).
- An exception inside an action ends the model's run in `Halted`. What xstate does with the actor after the error is not modelled.
- The stored out-of-range amount left by the drop loop is that of its last bottom test. The model recomputes it from the final position rather than carrying it through every iteration.
- `calcTSpineScroe` is modelled (`Places.CalcTSpineScore`), but the machine never calls it.

## Findings

| source | as written | input that shows it | evidently intended | confidence | as-written member | corrected member |
|---|---|---|---|---|---|---|
| src/tetrisMachine.ts:88-92 | the key is drawn from 0..8 (nine map keys), and `new PieceMap[key]()` throws for 7 and 8, which the map lacks | `Math.random()` at or above 7/9 | draw one of the seven tetromino keys 0-6 | not executed; high | Findings.GenerateNewPieceAsWritten (with Findings.SpawnDrawCanFail) | Findings.GenerateNewPiece (the machine draws `next: Kind`) |
| src/tetrisMachine.ts:116-117 | the border guard tests left and right only, so a rotation that reaches below the last row onto free cells is accepted, and 'renderPiece' writes into a missing row and throws | on an empty 4×7 board, the horizontal I filling row 3, its matrix anchored at column 0, row 2, then ROTATE | reject the rotation like any other out-of-border move | not executed; medium (the guard's method is missing from `Place`; read as left or right) | Findings.RotateAcrossFloorHalts (example Findings.RotateAcrossFloorExample) | Findings.RotateAcrossFloorReverts and MachineSafety.NeverHalts |
| src/tetrisMachine.ts:122-123 | 'is at Top' reads the rendered grid drawn before the lock, where the just-locked piece still has its moving code, so a new piece on top of it is not seen | on a 4×7 board with locked cells at (2, 4) and (2, 5), an O piece at spawn, then TICK with the next kind O | test the new piece against the board after the lock | not executed; high | Findings.LockThenSpawnAsWritten (example Findings.StaleSpawnExample) | Findings.LockThenSpawn |

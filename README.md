# Tetris game-state engine in Dafny

A model of the game-state engine of a React/TypeScript Tetris clone. The engine
lives in two hooks:

- `useTetrisBoard` holds the board, a 20-row by 10-column grid of cells, and the
  falling piece (its row, column, block kind and boolean shape matrix). It
  changes them through a reducer with four actions: `start`, `drop`, `commit`
  and `move`. The helpers `getEmptyBoard`, `rotateBlock` and `hasCollisions`
  build, turn and test shapes against the board.
- `useTetris` is the game controller. It keeps the score, the upcoming block
  and the `isCommitting` / `isPlaying` / `isPaused` flags, plus the timer
  cadence (`tickSpeed`). It runs the tick state machine: the sliding grace
  tick, the commit, or a drop. The commit stamps the piece, clears full rows
  from the bottom up, scores 100 per row and re-pads the board. The
  controller also maps keys to moves and renders the board with the piece
  written in.

The project has three modules, one per file:

- `Types` (`types.dfy`): cells, shapes, grids, the tick cadences and the board
  constants.
- `TetrisBoard` (`tetris_board.dfy`): the board hook. `BoardReducer` is a pure
  function on a `BoardState` datatype. `RotateBlock` and `HasCollisions` keep
  the source's loops and are proved equal to the specification functions
  `Rotated` and `Collides`.
- `Tetris` (`tetris.dfy`): the controller.
  - The class `Tetris` holds the six session fields and the board state, and
    its methods update them in place.
  - `CommitPosition`, `GameTick` and `Tick` are proved equal to functions on a
    `Session` value (`CommitPositionSpec`, `GameTickSpec`, `TickSpec`), and the
    lemmas are stated about those functions. The other methods (`StartGame`,
    `TogglePause`, `StopGame`, `HandleKeyDown`, `HandleKeyUp`) state every
    field afterwards directly.
  - The commit's steps run on a `Session` value in `CommitSession`, and
    `CommitPosition` copies its result into the fields. This keeps the proof
    of the stamp and clearing loops apart from the object's heap.
  - `AddShapeToBoard` and `ClearFullRows` keep the source's loops and are
    proved equal to `Stamped` and `KeepIncomplete`.

The model keeps these behaviours of the source as they are:

- Both the collision test and the stamp skip all-false shape rows first, so a
  shape row is placed at its index among the non-empty rows.
- `move` tests the candidate column with the unrotated shape and then installs
  the rotated one. `RotationCanLeaveBoard` exhibits a rotation that puts a
  piece partly outside the board.
- Only square shapes are rotated.
- The game-over test checks the upcoming block against the board before the
  falling piece is stamped. `RespawnCanOverlapLockedPiece` exhibits a locking
  commit that spawns the next piece on the cell of the piece it has just
  locked while the game goes on.
- So the source does not keep a falling piece off locked cells and inside the
  board. It breaks the rule in two ways: through this respawn, and through the
  move's collision test on the unrotated shape (`RotationCanLeaveBoard`). The
  model proves neither as an invariant.
- The board is padded twice, by the controller and again by the reducer.
  `CommitOfFullBoardKeepsIt` shows the second padding adds nothing.

The block kinds and the shape catalogue are defined outside the two hooks, so
`Block` is an abstract type and the catalogue is a parameter `shapes`. The
ghost predicate `IsCatalog` states what the model assumes of it: every shape
is square, non-empty, and lies inside the board at the spawn position. Random
block choices are method parameters.

## Model

| member | source | states |
|---|---|---|
| TetrisBoard.EmptyBoard | src/hooks/useTetrisBoard.ts:47-52 | exactly `height` rows of BOARD_WIDTH cells, every cell Empty |
| TetrisBoard.Rotated | src/hooks/useTetrisBoard.ts:59-74 | an n-by-n shape turns into an n-by-n shape with rotated[c][n-1-r] == shape[r][c] |
| TetrisBoard.RotatedTwice | src/hooks/useTetrisBoard.ts:59-74 | two quarter turns send cell (r, c) to (n-1-r, n-1-c) |
| TetrisBoard.RotatedFourTimes | src/hooks/useTetrisBoard.ts:59-74 | four rotations give back the original shape |
| TetrisBoard.RotateBlock | src/hooks/useTetrisBoard.ts:59-74 | the nested loops filling a fresh rows-by-columns array compute exactly the quarter turn |
| TetrisBoard.NonEmptyRows | src/hooks/useTetrisBoard.ts:78-79 | the result is never longer than the shape, and every row in it holds a set cell |
| TetrisBoard.NonEmptyRowsSelects | src/hooks/useTetrisBoard.ts:78-79 | the filter keeps exactly the rows holding a set cell, in their order: the k-th kept row is the shape row at the k-th such index, and the indices increase |
| TetrisBoard.KeepsExactlySetRows | src/hooks/useTetrisBoard.ts:78-79 | a row is in the filtered shape iff it is a row of the shape with a set cell |
| TetrisBoard.BlankShapeHasNoRows | src/hooks/useTetrisBoard.ts:78-79 | a shape with no set cell filters down to nothing |
| TetrisBoard.HasCollisions | src/hooks/useTetrisBoard.ts:76-94 | the flag is raised iff some set cell of the k-th non-empty row at column j lands below the board, beside it, or on a non-Empty cell |
| TetrisBoard.CollidesIffLeavesOrOverlaps | src/hooks/useTetrisBoard.ts:76-94 | a placement collides iff it leaves the board or overlaps a locked cell |
| TetrisBoard.BlankShapeNeverCollides | src/hooks/useTetrisBoard.ts:78-93 | a shape with no set cell never collides, wherever placed |
| TetrisBoard.EmptyBoardCollidesIffOutside | src/hooks/useTetrisBoard.ts:78-93 | on an all-Empty board a placement collides exactly when it does not lie inside the board |
| TetrisBoard.InitialBoardState | src/hooks/useTetrisBoard.ts:23-40 | the hook starts from a well-formed 20-row all-Empty board |
| TetrisBoard.PadToHeight | src/hooks/useTetrisBoard.ts:124 | the result has BOARD_HEIGHT rows: the given rows in order at the bottom, Empty rows above them |
| TetrisBoard.PadFullBoardIsIdentity | src/hooks/useTetrisBoard.ts:124 | padding a board that already has BOARD_HEIGHT rows changes nothing |
| TetrisBoard.ColumnOffset | src/hooks/useTetrisBoard.ts:134 | -1 iff left is pressed (left wins), +1 iff only right is pressed, 0 iff neither |
| TetrisBoard.BoardReducer | src/hooks/useTetrisBoard.ts:105-157 | start: all-Empty board, piece at row 0 column 3 with the catalogue shape; drop: row + 1, nothing else changes; commit: supplied rows at the bottom in order under Empty rows, piece reset; move: unchanged if the unrotated shape collides at the new column, else column moved and shape rotated when rotating; board, row and block never change on move; the result is always well formed |
| TetrisBoard.StartPieceIsClear | src/hooks/useTetrisBoard.ts:109-118 | after start the piece is inside the board on empty cells |
| TetrisBoard.TranslationKeepsPieceClear | src/hooks/useTetrisBoard.ts:131-147 | a move without rotation keeps a piece that is clear of locked cells clear |
| TetrisBoard.TranslationKeepsPieceInside | src/hooks/useTetrisBoard.ts:131-147 | a move without rotation keeps a piece that lies inside the board inside |
| TetrisBoard.RotationCanLeaveBoard | src/hooks/useTetrisBoard.ts:133-145 | a vertical two-cell piece at column 9 of an empty board rotates into a piece that sticks out of the board, because the test used the unrotated shape |
| TetrisBoard.CommitOfFullBoardKeepsIt | src/hooks/useTetrisBoard.ts:122-130 | the reducer's second padding of the controller's padded board installs that board unchanged |
| Tetris.Stamped | src/hooks/useTetris.ts:169-188 | same height and width; a cell holds the block iff the placed shape covers it, any other cell is unchanged |
| Tetris.CollidesIffCoveredCellBlocked | src/hooks/useTetris.ts:169-188 | the cells the stamp writes are exactly the cells the collision test examines as set |
| Tetris.StampedPieceCollides | src/hooks/useTetris.ts:169-188 | once stamped, a non-blank piece inside the board overlaps its own cells |
| Tetris.NonEmptyRowsKeepsSetRow | src/hooks/useTetris.ts:177-179 | a shape with a set cell has a first non-empty row holding a set cell |
| Tetris.AddShapeToBoard | src/hooks/useTetris.ts:169-188 | the cell-by-cell writes on the copy produce exactly the stamped board |
| Tetris.KeepIncomplete | src/hooks/useTetris.ts:76-82 | never longer than the input, every row in the result has an Empty cell, and rows of BOARD_WIDTH cells stay that wide |
| Tetris.KeepIncompleteSelects | src/hooks/useTetris.ts:76-82 | the kept rows are exactly the non-full rows, in increasing original order |
| Tetris.CountFull | src/hooks/useTetris.ts:76-82 | the number of full rows is at most the number of rows |
| Tetris.KeptPlusClearedIsAll | src/hooks/useTetris.ts:76-82 | kept rows plus full rows account for every row |
| Tetris.ClearingStep | src/hooks/useTetris.ts:77-81 | one step of the loop: the row at the index is dropped and counted iff it has no Empty cell, and the rows below it are handled the same way |
| Tetris.ClearFullRows | src/hooks/useTetris.ts:76-82 | the bottom-to-top splice loop leaves exactly the non-full rows in order, and clearedRows == BOARD_HEIGHT - length == number of full rows |
| Tetris.StampedBoard | src/hooks/useTetris.ts:72-73 | the board with the falling piece stamped keeps full height and width |
| Tetris.ClearedAfterStamp | src/hooks/useTetris.ts:72-82 | after stamp and clear no row is full, and the board is at most BOARD_HEIGHT rows of BOARD_WIDTH cells |
| Tetris.LockPiece | src/hooks/useTetris.ts:72-82 | clone, stamp and clearing loop yield the kept rows and the count BOARD_HEIGHT - kept == number of full rows of the stamped board |
| Tetris.CommitSpawnFits | src/hooks/useTetris.ts:65-97 | when the upcoming block passed the spawn test, the dispatched commit leaves a full-height board with the new piece inside it |
| Tetris.DropIntoFreeRowIsClear | src/hooks/useTetris.ts:110-115 | a drop happens only into a free row, so the dropped piece is clear and inside the board |
| Tetris.CommitPositionSpec | src/hooks/useTetris.ts:56-99 | the commit keeps the session valid and the piece inside the board, never pauses or unpauses, never lowers the score |
| Tetris.CommitSession | src/hooks/useTetris.ts:56-99 | the two collision tests, the lock and the dispatch compute the commit on a session value |
| Tetris.SuccessfulCommitEffects | src/hooks/useTetris.ts:85-98 | a locking commit adds 100 per full row of the stamped board, keeps full height with the kept rows at the bottom, spawns the former upcoming block at row 0 column 3, draws the next upcoming block, sets Normal cadence and ends the pending commit |
| Tetris.UnsuccessfulCommitEffects | src/hooks/useTetris.ts:58-69 | if the piece can still fall: isCommitting false and Normal cadence; if the upcoming block is blocked at spawn: isPlaying false, timer stopped, isCommitting left as it was; in both cases board, score and upcoming block are untouched |
| Tetris.GameTickSpec | src/hooks/useTetris.ts:102-117 | a tick keeps the session valid and the piece inside the board, and never lowers the score |
| Tetris.GameTickOutcomes | src/hooks/useTetris.ts:102-117 | paused: no effect; commit pending: exactly the commit; blocked one row below: Sliding cadence and commit pending, nothing else changes; otherwise: the piece drops one row and nothing else changes; a drop lands in free space, and a board change other than a drop is a locking commit that respawns at the top |
| Tetris.TickSpec | src/hooks/useTetris.ts:120-122 | the timer callback keeps the session valid and never lowers the score |
| Tetris.TickScoresInHundreds | src/hooks/useTetris.ts:85 | every tick raises the score by a multiple of 100, and only a locking commit of a playing, unpaused game raises it |
| Tetris.NoFullRowKeepsAll | src/hooks/useTetris.ts:76-82 | clearing a board with no full row keeps every row |
| Tetris.RespawnCanOverlapLockedPiece | src/hooks/useTetris.ts:65-97 | a one-cell piece at (0, 3) resting on a locked cell at (1, 3) locks, the spawn test on the unstamped board passes, and the game continues with the new piece on the cell just locked |
| Tetris.StoppedGameIgnoresTicks | src/hooks/useTetris.ts:120-122 | while isPlaying is false a tick changes nothing |
| Tetris.Tetris.constructor | src/hooks/useTetris.ts:18-26 | score 0, no upcoming block, all flags false, timer stopped, the initial board state |
| Tetris.Tetris.StartGame | src/hooks/useTetris.ts:29-41 | score 0, the drawn upcoming block, isCommitting false, isPlaying true, isPaused false, Normal cadence, the board after start, with the piece clear and inside the board |
| Tetris.Tetris.TogglePause | src/hooks/useTetris.ts:44-46 | negates isPaused and changes nothing else |
| Tetris.Tetris.StopGame | src/hooks/useTetris.ts:49-53 | isPlaying false, no upcoming block, isPaused false; score, cadence and board unchanged |
| Tetris.Tetris.CommitPosition | src/hooks/useTetris.ts:56-99 | the fields afterwards are the commit of the old session value |
| Tetris.Tetris.GameTick | src/hooks/useTetris.ts:102-117 | the fields afterwards are the tick of the old session value |
| Tetris.Tetris.Tick | src/hooks/useTetris.ts:120-122 | the fields afterwards are the timer callback applied to the old session value |
| Tetris.Tetris.HandleKeyDown | src/hooks/useTetris.ts:126-135 | ignored when not playing, paused or auto-repeated; down sets Fast cadence; up rotates, left and right move through the reducer; other fields never change; without rotation a piece inside the board stays inside |
| Tetris.Tetris.HandleKeyUp | src/hooks/useTetris.ts:137-139 | releasing down in a playing, unpaused game restores Normal cadence; nothing else changes |
| Tetris.Tetris.RenderedBoard | src/hooks/useTetris.ts:150-153 | a full-size copy of the board with the piece's covered cells holding its block while playing, every other cell as stored |

## Left out

- React plumbing (`useState`, `useReducer`, `useCallback`, `useEffect`, re-render scheduling) is not modelled. The session is a class whose fields the methods assign directly.
- The interval timer (`useInterval`) is not modelled. Ticks are explicit `Tick` calls, and `tickSpeed` is a plain field.
- `getRandomBlock` and `Math.random` are not modelled. Every drawn block is a method parameter: `startingBlock`, `firstBlock`, `nextUpcoming`.
- The block kinds and `SHAPES` catalogue are not part of this model. `Block` is abstract, and `IsCatalog` assumes every shape is square, non-empty, and inside the board at the spawn position.
- Tetris.Tetris.constructor: the hook starts with block `I` and its shape, which the abstract catalogue cannot name, so the first block is a parameter.
- Keyboard listener registration and removal are not modelled. This includes the cleanup at src/hooks/useTetris.ts:145, which removes `handleKeyDown` instead of `handleKeyUp` for `keyup`.
- Tetris.Tetris.HandleKeyUp: because of that cleanup, a stale key-up listener can still reset the cadence while the game is paused or stopped. The model only covers the listener registered while a game is played and unpaused.
- The reducer's `default` branch, which throws on an unknown action type, is left out: it is unreachable with a closed `Action` datatype.
- TetrisBoard.RotateBlock: requires a square, non-empty shape. The source allocates `rows` rows of `columns` cells and writes `rotated[column]`, which fails or misshapes non-square input, and reads `shape[0]` of an empty shape.
- TetrisBoard.BoardReducer: requires that a `commit` board has at most 20 rows of 10 cells. With more rows, `getEmptyBoard` gets a negative height and throws.
- Tetris.AddShapeToBoard: requires the piece to lie inside the board. In the source, a write below the board throws. A write past the right edge grows the row, and a write left of column 0 adds a non-index property while the row keeps its 10 cells.
- Tetris.LockPiece, Tetris.CommitSession and Tetris.Tetris.CommitPosition require the falling piece to lie inside the board, because the stamp does.
- Tetris.CommitPositionSpec requires the falling piece to lie inside the board, because the stamp does. It specifies the commit on a session value.
- Tetris.Tetris.GameTick and Tetris.Tetris.Tick require the piece inside the board while playing, because a tick can commit. A rotation can break this (see `RotationCanLeaveBoard`), and the source then throws or corrupts the board.
- Tetris.GameTickSpec requires the piece inside the board, for the same reason as Tetris.Tetris.GameTick. The source still ticks a piece outside the board, into the sliding grace.
- Tetris.TickSpec requires the piece inside the board while playing, for the same reason as Tetris.Tetris.Tick.
- Tetris.Tetris.RenderedBoard requires the piece inside the board while playing, for the same reason.
- Tetris.CommitPositionSpec requires an upcoming block. The source reads `upcomingBlock!`, which is always set while a game is played.
- JavaScript numbers are modelled as unbounded integers. The score never comes near 2^53.

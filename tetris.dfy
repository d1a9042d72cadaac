/** The game controller: the session fields, the commit with its row clearing,
    the tick state machine, the key handling and the rendered board. */
module Tetris {
  import opened Types
  import opened TetrisBoard

  // ---------------------------------------------------------------------------
  // Stamping the piece

  /** Board position (r, c) receives a set cell of the shape placed at
      (row, column), counting rows among the non-empty rows only. */
  predicate Covers(shape: Shape, row: nat, column: int, r: int, c: int) {
    var rows := NonEmptyRows(shape);
    row <= r < row + |rows| && 0 <= c - column < |rows[r - row]| && rows[r - row][c - column]
  }

  /** The board with the block written into every covered cell. */
  function Stamped(board: Grid, row: nat, column: int, block: Block, shape: Shape): (stamped: Grid)
    requires IsGrid(board)
    ensures |stamped| == |board| && IsGrid(stamped)
    ensures forall r, c :: 0 <= r < |board| && 0 <= c < BoardWidth ==>
      stamped[r][c] == if Covers(shape, row, column, r, c) then Filled(block) else board[r][c]
  {
    seq(|board|, r requires 0 <= r < |board| =>
      seq(BoardWidth, c requires 0 <= c < BoardWidth =>
        if Covers(shape, row, column, r, c) then Filled(block) else board[r][c]))
  }

  /** The cells the stamp writes are exactly the cells the collision test
      examines: a placement collides iff one of its covered positions is blocked. */
  lemma CollidesIffCoveredCellBlocked(board: Grid, row: nat, column: int, shape: Shape)
    requires IsGrid(board)
    ensures Collides(board, row, column, shape) <==>
      exists r: nat, c :: Covers(shape, row, column, r, c) && Blocked(board, r, c)
  {
    var rows := NonEmptyRows(shape);
    if Collides(board, row, column, shape) {
      var k, j :| 0 <= k < |rows| && 0 <= j < |rows[k]| && rows[k][j] && Blocked(board, row + k, column + j);
      assert Covers(shape, row, column, row + k, column + j);
    }
    if exists r: nat, c :: Covers(shape, row, column, r, c) && Blocked(board, r, c) {
      var r: nat, c :| Covers(shape, row, column, r, c) && Blocked(board, r, c);
      assert rows[r - row][c - column] && Blocked(board, row + (r - row), column + (c - column));
    }
  }

  /** Once stamped, a non-blank piece that fits collides with its own cells. */
  lemma StampedPieceCollides(board: Grid, row: nat, column: int, block: Block, shape: Shape)
    requires IsGrid(board) && Fits(|board|, row, column, shape)
    requires exists r :: r in shape && true in r
    ensures Overlaps(Stamped(board, row, column, block, shape), row, column, shape)
  {
    var r0 :| r0 in shape && true in r0;
    var rows := NonEmptyRows(shape);
    NonEmptyRowsKeepsSetRow(shape, r0);
    var j :| 0 <= j < |rows[0]| && rows[0][j];
    assert Covers(shape, row, column, row, column + j);
  }

  /** A shape with a set cell has a first non-empty row. */
  lemma {:induction false} NonEmptyRowsKeepsSetRow(shape: Shape, r0: seq<bool>)
    requires r0 in shape && true in r0
    ensures NonEmptyRows(shape) != [] && true in NonEmptyRows(shape)[0]
  {
    if true !in shape[0] {
      assert r0 in shape[1..];
      NonEmptyRowsKeepsSetRow(shape[1..], r0);
    }
  }

  /** Covered by the k-th non-empty row for k below `kEnd`, or by row `kEnd` at a column below `jEnd`. */
  ghost predicate CoversBefore(rows: Shape, row: nat, column: int, kEnd: nat, jEnd: nat, r: int, c: int) {
    row <= r < row + |rows| && 0 <= c - column < |rows[r - row]| && rows[r - row][c - column] &&
    (r - row < kEnd || (r - row == kEnd && c - column < jEnd))
  }

  /** `addShapeToBoard`: writes the block into the cells of the piece, one set
      cell at a time, on a copy of the board. The piece must lie inside the board. */
  method AddShapeToBoard(board: Grid, droppingRow: nat, droppingColumn: int, droppingBlock: Block,
                         droppingShape: Shape) returns (newBoard: Grid)
    requires IsGrid(board) && Fits(|board|, droppingRow, droppingColumn, droppingShape)
    ensures newBoard == Stamped(board, droppingRow, droppingColumn, droppingBlock, droppingShape)
  {
    newBoard := board;
    var rows := NonEmptyRows(droppingShape);
    for rowIndex := 0 to |rows|
      invariant |newBoard| == |board| && IsGrid(newBoard)
      invariant forall r, c :: 0 <= r < |board| && 0 <= c < BoardWidth ==>
        newBoard[r][c] == if CoversBefore(rows, droppingRow, droppingColumn, rowIndex, 0, r, c)
                          then Filled(droppingBlock) else board[r][c]
    {
      var shapeRow := rows[rowIndex];
      for colIndex := 0 to |shapeRow|
        invariant |newBoard| == |board| && IsGrid(newBoard)
        invariant forall r, c :: 0 <= r < |board| && 0 <= c < BoardWidth ==>
          newBoard[r][c] == if CoversBefore(rows, droppingRow, droppingColumn, rowIndex, colIndex, r, c)
                            then Filled(droppingBlock) else board[r][c]
      {
        if shapeRow[colIndex] {
          var r, c := droppingRow + rowIndex, droppingColumn + colIndex;
          newBoard := newBoard[r := newBoard[r][c := Filled(droppingBlock)]];
        }
      }
    }
    var stamped := Stamped(board, droppingRow, droppingColumn, droppingBlock, droppingShape);
    forall r | 0 <= r < |board|
      ensures newBoard[r] == stamped[r]
    {
      assert newBoard[r] in newBoard && stamped[r] in stamped;
    }
  }

  // ---------------------------------------------------------------------------
  // Clearing full rows

  /** A row without any empty cell. */
  predicate IsFull(row: seq<Cell>) {
    Empty !in row
  }

  /** The rows that are not full, in their order. */
  function KeepIncomplete(rows: Grid): (kept: Grid)
    ensures |kept| <= |rows|
    ensures forall i :: 0 <= i < |kept| ==> !IsFull(kept[i])
    ensures IsGrid(rows) ==> IsGrid(kept)
  {
    if rows == [] then []
    else (if IsFull(rows[0]) then [] else [rows[0]]) + KeepIncomplete(rows[1..])
  }

  /** The indices, from `from` on and in increasing order, of the rows that are not full. */
  function IncompleteIndices(rows: Grid, from: nat): (indices: seq<nat>)
    requires from <= |rows|
    decreases |rows| - from
  {
    if from == |rows| then []
    else (if IsFull(rows[from]) then [] else [from]) + IncompleteIndices(rows, from + 1)
  }

  /** Clearing keeps exactly the rows that are not full, in their original
      order: the k-th kept row is the row at the k-th such index. */
  lemma {:induction false} KeepIncompleteSelects(rows: Grid, from: nat)
    requires from <= |rows|
    ensures var kept := KeepIncomplete(rows[from..]);
            var indices := IncompleteIndices(rows, from);
      |kept| == |indices| &&
      (forall k :: 0 <= k < |indices| ==> from <= indices[k] < |rows| && kept[k] == rows[indices[k]]) &&
      (forall k, l :: 0 <= k < l < |indices| ==> indices[k] < indices[l]) &&
      (forall i :: from <= i < |rows| ==> (i in indices <==> !IsFull(rows[i])))
    decreases |rows| - from
  {
    if from < |rows| {
      KeepIncompleteSelects(rows, from + 1);
      assert rows[from..][1..] == rows[from + 1..];
      assert rows[from..][0] == rows[from];
    }
  }

  /** The number of full rows. */
  function CountFull(rows: Grid): (n: nat)
    ensures n <= |rows|
  {
    if rows == [] then 0
    else (if IsFull(rows[0]) then 1 else 0) + CountFull(rows[1..])
  }

  /** Every row is either kept or counted as cleared. */
  lemma {:induction false} KeptPlusClearedIsAll(rows: Grid)
    ensures |KeepIncomplete(rows)| + CountFull(rows) == |rows|
  {
    if rows != [] {
      KeptPlusClearedIsAll(rows[1..]);
    }
  }

  /** Clearing a suffix of the board starting at `row` handles that row, then the rest. */
  lemma ClearingStep(board: Grid, row: nat)
    requires row < |board|
    ensures KeepIncomplete(board[row..]) ==
      (if IsFull(board[row]) then [] else [board[row]]) + KeepIncomplete(board[row + 1..])
    ensures CountFull(board[row..]) == (if IsFull(board[row]) then 1 else 0) + CountFull(board[row + 1..])
  {
    assert board[row..][1..] == board[row + 1..];
  }

  /** The row-clearing loop of `commitPosition`: from the bottom row to the
      top one, every full row is spliced out and counted. */
  method ClearFullRows(board: Grid) returns (newBoard: Grid, clearedRows: nat)
    requires |board| == BoardHeight
    ensures newBoard == KeepIncomplete(board)
    ensures clearedRows == BoardHeight - |newBoard| == CountFull(board)
  {
    newBoard := board;
    clearedRows := 0;
    var row := BoardHeight - 1;
    while row >= 0
      invariant -1 <= row < BoardHeight
      invariant newBoard == board[..row + 1] + KeepIncomplete(board[row + 1..])
      invariant clearedRows + |newBoard| == BoardHeight
      invariant clearedRows == CountFull(board[row + 1..])
    {
      ClearingStep(board, row);
      ghost var rest := KeepIncomplete(board[row + 1..]);
      assert newBoard[row] == board[row];
      if IsFull(newBoard[row]) {
        clearedRows := clearedRows + 1;
        assert newBoard[..row] == board[..row];
        assert newBoard[row + 1..] == rest;
        newBoard := newBoard[..row] + newBoard[row + 1..];
      } else {
        assert board[..row + 1] == board[..row] + [board[row]];
      }
      row := row - 1;
    }
  }


  /** The piece of a state written into its board. */
  function StampedBoard(state: BoardState): (stamped: Grid)
    requires WellFormed(state) && PieceFits(state)
    ensures |stamped| == BoardHeight && IsGrid(stamped)
  {
    Stamped(state.board, state.droppingRow, state.droppingColumn, state.droppingBlock, state.droppingShape)
  }

  /** The board a successful commit leaves before padding: the piece stamped,
      then the full rows removed. */
  function ClearedAfterStamp(state: BoardState): (kept: Grid)
    requires WellFormed(state) && PieceFits(state)
    ensures |kept| <= BoardHeight && IsGrid(kept)
    ensures forall i :: 0 <= i < |kept| ==> !IsFull(kept[i])
  {
    KeepIncomplete(StampedBoard(state))
  }

  /** The locking step of `commitPosition`: the piece stamped on a copy of the
      board, then the full rows cleared from the bottom up and counted. */
  method LockPiece(state: BoardState) returns (kept: Grid, clearedRows: nat)
    requires WellFormed(state) && PieceFits(state)
    ensures kept == ClearedAfterStamp(state)
    ensures clearedRows == BoardHeight - |kept| == CountFull(StampedBoard(state))
  {
    var newBoard := AddShapeToBoard(state.board, state.droppingRow, state.droppingColumn,
                                    state.droppingBlock, state.droppingShape);
    kept, clearedRows := ClearFullRows(newBoard);
  }

  /** After a successful commit the falling piece is the new block at the spawn
      position of a full-height board, and it lies inside the board: the spawn
      check passed on the old board, which has the same height. */
  lemma CommitSpawnFits(shapes: Catalog, state: BoardState, kept: Grid, newBlock: Block)
    requires IsCatalog(shapes) && WellFormed(state)
    requires |kept| <= BoardHeight && IsGrid(kept)
    requires !Collides(state.board, InitialRow, InitialColumn, shapes(newBlock))
    ensures var next := BoardReducer(shapes, state, Commit(PadToHeight(kept), newBlock));
      PieceFits(next) && |next.board| == BoardHeight
  {
    CollidesIffLeavesOrOverlaps(state.board, InitialRow, InitialColumn, shapes(newBlock));
  }

  /** A drop happens only when the row below is free, so the dropped piece is clear. */
  lemma DropIntoFreeRowIsClear(shapes: Catalog, state: BoardState)
    requires IsCatalog(shapes) && WellFormed(state)
    requires !Collides(state.board, state.droppingRow + 1, state.droppingColumn, state.droppingShape)
    ensures var next := BoardReducer(shapes, state, Drop); PieceIsClear(next) && PieceFits(next)
  {
    CollidesIffLeavesOrOverlaps(state.board, state.droppingRow + 1, state.droppingColumn, state.droppingShape);
  }

  // ---------------------------------------------------------------------------
  // The session as a value, and its transitions

  /** The controller's six fields and the board state, as one value. */
  datatype Session = Session(
    score: int,
    upcomingBlock: Option<Block>,
    isCommitting: bool,
    isPlaying: bool,
    isPaused: bool,
    tickSpeed: Option<TickSpeed>,
    boardState: BoardState)

  /** The board is well formed, the score is not negative, and a game in play
      has an upcoming block and a running timer. */
  predicate SessionValid(s: Session) {
    WellFormed(s.boardState) && s.score >= 0 &&
    (s.isPlaying ==> s.upcomingBlock.Some? && s.tickSpeed.Some?)
  }

  /** The falling piece cannot move down and the upcoming block has room at
      the spawn position: the commit locks the piece. */
  predicate Locks(shapes: Catalog, s: Session)
    requires SessionValid(s) && s.upcomingBlock.Some?
  {
    var st := s.boardState;
    Collides(st.board, st.droppingRow + 1, st.droppingColumn, st.droppingShape) &&
    !Collides(st.board, InitialRow, InitialColumn, shapes(s.upcomingBlock.value))
  }

  /** `commitPosition` on a session value, `nextUpcoming` being the block drawn
      for the next upcoming piece. */
  function CommitPositionSpec(shapes: Catalog, s: Session, nextUpcoming: Block): (r: Session)
    requires IsCatalog(shapes) && SessionValid(s) && s.upcomingBlock.Some? && PieceFits(s.boardState)
    ensures SessionValid(r) && PieceFits(r.boardState)
    ensures r.isPaused == s.isPaused && r.score >= s.score
  {
    var st := s.boardState;
    if !Collides(st.board, st.droppingRow + 1, st.droppingColumn, st.droppingShape) then
      s.(isCommitting := false, tickSpeed := Some(Normal))
    else if Collides(st.board, InitialRow, InitialColumn, shapes(s.upcomingBlock.value)) then
      s.(isPlaying := false, tickSpeed := None)
    else
      var kept := ClearedAfterStamp(st);
      CommitSpawnFits(shapes, st, kept, s.upcomingBlock.value);
      s.(score := s.score + (BoardHeight - |kept|) * 100,
         upcomingBlock := Some(nextUpcoming),
         tickSpeed := Some(Normal),
         boardState := BoardReducer(shapes, st, Commit(PadToHeight(kept), s.upcomingBlock.value)),
         isCommitting := false)
  }

  /** `gameTick` on a session value. */
  function GameTickSpec(shapes: Catalog, s: Session, nextUpcoming: Block): (r: Session)
    requires IsCatalog(shapes) && SessionValid(s) && s.isPlaying && PieceFits(s.boardState)
    ensures SessionValid(r) && PieceFits(r.boardState) && r.score >= s.score
  {
    var st := s.boardState;
    if s.isPaused then s
    else if s.isCommitting then CommitPositionSpec(shapes, s, nextUpcoming)
    else if Collides(st.board, st.droppingRow + 1, st.droppingColumn, st.droppingShape) then
      s.(tickSpeed := Some(Sliding), isCommitting := true)
    else
      DropIntoFreeRowIsClear(shapes, st);
      s.(boardState := BoardReducer(shapes, st, Drop))
  }

  /** The timer callback on a session value: `isPlaying && gameTick()`. */
  function TickSpec(shapes: Catalog, s: Session, nextUpcoming: Block): (r: Session)
    requires IsCatalog(shapes) && SessionValid(s) && (s.isPlaying ==> PieceFits(s.boardState))
    ensures SessionValid(r) && (s.isPlaying ==> PieceFits(r.boardState)) && r.score >= s.score
  {
    if s.isPlaying then GameTickSpec(shapes, s, nextUpcoming) else s
  }

  /** A commit that locks the piece scores 100 for every full row of the board
      with the piece stamped in, keeps the board at full height with the kept
      rows at the bottom, spawns the former upcoming block at the spawn
      position, restores the normal cadence and ends the pending commit. */
  lemma SuccessfulCommitEffects(shapes: Catalog, s: Session, nextUpcoming: Block)
    requires IsCatalog(shapes) && SessionValid(s) && s.upcomingBlock.Some? && PieceFits(s.boardState)
    requires Locks(shapes, s)
    ensures var r := CommitPositionSpec(shapes, s, nextUpcoming);
            var kept := KeepIncomplete(StampedBoard(s.boardState));
      r.score == s.score + 100 * CountFull(StampedBoard(s.boardState)) &&
      |r.boardState.board| == BoardHeight &&
      r.boardState.board[BoardHeight - |kept|..] == kept &&
      r.boardState.droppingBlock == s.upcomingBlock.value &&
      r.boardState.droppingShape == shapes(s.upcomingBlock.value) &&
      r.boardState.droppingRow == InitialRow && r.boardState.droppingColumn == InitialColumn &&
      r.upcomingBlock == Some(nextUpcoming) &&
      r.tickSpeed == Some(Normal) && !r.isCommitting && r.isPlaying == s.isPlaying
  {
    KeptPlusClearedIsAll(StampedBoard(s.boardState));
  }

  /** When the piece can still fall the commit is given up; when the upcoming
      block is blocked at spawn the game ends. Neither touches board or score. */
  lemma UnsuccessfulCommitEffects(shapes: Catalog, s: Session, nextUpcoming: Block)
    requires IsCatalog(shapes) && SessionValid(s) && s.upcomingBlock.Some? && PieceFits(s.boardState)
    requires !Locks(shapes, s)
    ensures var r := CommitPositionSpec(shapes, s, nextUpcoming);
      var st := s.boardState;
      var canDrop := !Collides(st.board, st.droppingRow + 1, st.droppingColumn, st.droppingShape);
      r.boardState == s.boardState && r.score == s.score && r.upcomingBlock == s.upcomingBlock &&
      r.isPaused == s.isPaused &&
      (canDrop ==> !r.isCommitting && r.tickSpeed == Some(Normal) && r.isPlaying == s.isPlaying) &&
      (!canDrop ==> !r.isPlaying && r.tickSpeed == None && r.isCommitting == s.isCommitting)
  {
  }

  /** Every tick raises the score by a multiple of 100, and only a commit that
      locks the piece raises it at all. */
  lemma TickScoresInHundreds(shapes: Catalog, s: Session, nextUpcoming: Block)
    requires IsCatalog(shapes) && SessionValid(s) && (s.isPlaying ==> PieceFits(s.boardState))
    ensures var r := TickSpec(shapes, s, nextUpcoming);
      exists n: nat :: r.score == s.score + 100 * n
    ensures var r := TickSpec(shapes, s, nextUpcoming);
      r.score != s.score ==> s.isPlaying && !s.isPaused && s.isCommitting && Locks(shapes, s)
  {
    var r := TickSpec(shapes, s, nextUpcoming);
    if s.isPlaying && !s.isPaused && s.isCommitting && Locks(shapes, s) {
      SuccessfulCommitEffects(shapes, s, nextUpcoming);
      assert r.score == s.score + 100 * CountFull(StampedBoard(s.boardState));
    } else {
      assert r.score == s.score + 100 * 0;
    }
  }

  /** A tick of a game in play leaves the board state alone, drops the piece
      one row into free space (never while a commit is pending), or performs
      a commit that locks the piece and respawns at the top. Which one happens:
      a paused game ignores the tick; a pending commit runs the commit and
      nothing else; a piece blocked one row below starts the sliding grace
      (Sliding cadence, commit pending, piece in place); otherwise the piece
      drops one row. */
  lemma GameTickOutcomes(shapes: Catalog, s: Session, nextUpcoming: Block)
    requires IsCatalog(shapes) && SessionValid(s) && s.isPlaying && PieceFits(s.boardState)
    ensures s.isPaused ==> GameTickSpec(shapes, s, nextUpcoming) == s
    ensures var r := GameTickSpec(shapes, s, nextUpcoming);
      r.boardState == s.boardState ||
      (!s.isPaused && !s.isCommitting && PieceIsClear(r.boardState) &&
       r.boardState == s.boardState.(droppingRow := s.boardState.droppingRow + 1)) ||
      (!s.isPaused && s.isCommitting && Locks(shapes, s) &&
       r.boardState.droppingRow == InitialRow && r.boardState.droppingColumn == InitialColumn)
    ensures !s.isPaused && s.isCommitting ==>
      GameTickSpec(shapes, s, nextUpcoming) == CommitPositionSpec(shapes, s, nextUpcoming)
    ensures var st := s.boardState;
      !s.isPaused && !s.isCommitting && Collides(st.board, st.droppingRow + 1, st.droppingColumn, st.droppingShape) ==>
      GameTickSpec(shapes, s, nextUpcoming) == s.(tickSpeed := Some(Sliding), isCommitting := true)
    ensures var st := s.boardState;
      !s.isPaused && !s.isCommitting && !Collides(st.board, st.droppingRow + 1, st.droppingColumn, st.droppingShape) ==>
      GameTickSpec(shapes, s, nextUpcoming) == s.(boardState := st.(droppingRow := st.droppingRow + 1))
  {
    var st := s.boardState;
    if !s.isPaused && !s.isCommitting &&
       !Collides(st.board, st.droppingRow + 1, st.droppingColumn, st.droppingShape) {
      DropIntoFreeRowIsClear(shapes, st);
    } else if !s.isPaused && s.isCommitting && Locks(shapes, s) {
      SuccessfulCommitEffects(shapes, s, nextUpcoming);
    }
  }

  /** Clearing a board with no full row keeps every row. */
  lemma {:induction false} NoFullRowKeepsAll(rows: Grid)
    requires forall i :: 0 <= i < |rows| ==> !IsFull(rows[i])
    ensures KeepIncomplete(rows) == rows
  {
    if rows != [] {
      assert !IsFull(rows[0]);
      NoFullRowKeepsAll(rows[1..]);
    }
  }

  /** Because the spawn test looks at the board before the locked piece is
      written into it, a locking commit can spawn the next piece on the cells
      of the piece it has just locked, and the game goes on: a one-cell piece
      resting at (0, 3) on a locked cell at (1, 3) is locked, and the next
      one-cell piece appears at (0, 3) on top of it. */
  lemma RespawnCanOverlapLockedPiece(block: Block)
    ensures var shapes: Catalog := _ => [[true]];
            var board := EmptyBoard(BoardHeight)[1 := EmptyBoard(BoardHeight)[1][3 := Filled(block)]];
            var s := Session(0, Some(block), true, true, false, Some(Sliding),
                             BoardState(board, 0, 3, block, [[true]]));
      IsCatalog(shapes) && SessionValid(s) && PieceIsClear(s.boardState) && PieceFits(s.boardState) &&
      Locks(shapes, s) &&
      var r := CommitPositionSpec(shapes, s, block);
      r.isPlaying && !PieceIsClear(r.boardState)
  {
    var shapes: Catalog := _ => [[true]];
    var one: Shape := [[true]];
    assert NonEmptyRows(one) == one by {
      assert HasSetCell(one[0]);
      assert one[1..] == [];
    }
    assert IsSquare(one);
    assert Fits(BoardHeight, InitialRow, InitialColumn, one);
    assert IsCatalog(shapes);
    var empty := EmptyBoard(BoardHeight);
    var board := empty[1 := empty[1][3 := Filled(block)]];
    assert IsGrid(board);
    var st := BoardState(board, 0, 3, block, one);
    var s := Session(0, Some(block), true, true, false, Some(Sliding), st);
    assert board[0][3] == Empty;
    assert !Collides(board, 0, 3, one);
    assert Blocked(board, 1 + 0, 3 + 0) by { assert board[1][3] == Filled(block); }
    assert Collides(board, 1, 3, one);
    assert Locks(shapes, s);
    var stamped := StampedBoard(st);
    forall i | 0 <= i < |stamped|
      ensures !IsFull(stamped[i])
    {
      assert !Covers(one, 0, 3, i, 0);
      assert stamped[i][0] == Empty;
    }
    NoFullRowKeepsAll(stamped);
    PadFullBoardIsIdentity(stamped);
    var r := CommitPositionSpec(shapes, s, block);
    assert r.boardState.board == stamped;
    assert Covers(one, 0, 3, 0, 3);
    assert r.boardState.board[0][3] == Filled(block);
    assert Collides(r.boardState.board, 0, 3, one);
  }

  /** Once the game has ended, ticks change nothing. */
  lemma StoppedGameIgnoresTicks(shapes: Catalog, s: Session, nextUpcoming: Block)
    requires IsCatalog(shapes) && SessionValid(s) && !s.isPlaying
    ensures TickSpec(shapes, s, nextUpcoming) == s
  {
  }

  /** The steps of `commitPosition` on a session value: the two collision
      tests, then the stamp, the clearing loop and the commit dispatch.
      `Tetris.CommitPosition` runs these steps and copies the result into the
      object's fields; keeping them on a value keeps the proof of the stamp
      and clearing loops apart from the object's heap. */
  method CommitSession(shapes: Catalog, s: Session, nextUpcoming: Block) returns (r: Session)
    requires IsCatalog(shapes) && SessionValid(s) && s.upcomingBlock.Some? && PieceFits(s.boardState)
    ensures r == CommitPositionSpec(shapes, s, nextUpcoming)
  {
    var st := s.boardState;
    var blockedBelow := HasCollisions(st.board, st.droppingRow + 1, st.droppingColumn, st.droppingShape);
    if !blockedBelow {
      return s.(isCommitting := false, tickSpeed := Some(Normal));
    }
    var gameOver := HasCollisions(st.board, InitialRow, InitialColumn, shapes(s.upcomingBlock.value));
    if gameOver {
      return s.(isPlaying := false, tickSpeed := None);
    }
    var kept, clearedRows := LockPiece(st);
    var newBlock := s.upcomingBlock.value;
    r := s.(score := s.score + clearedRows * 100,
            upcomingBlock := Some(nextUpcoming),
            tickSpeed := Some(Normal),
            boardState := BoardReducer(shapes, st, Commit(PadToHeight(kept), newBlock)),
            isCommitting := false);
  }

  // ---------------------------------------------------------------------------
  // The session object

  datatype Key = ArrowDown | ArrowUp | ArrowLeft | ArrowRight | OtherKey

  /** The game session: the controller's six fields plus the board state it
      dispatches actions to. Random block choices are method arguments. */
  class Tetris {
    const shapes: Catalog
    var score: int
    var upcomingBlock: Option<Block>
    var isCommitting: bool
    var isPlaying: bool
    var isPaused: bool
    var tickSpeed: Option<TickSpeed>
    var boardState: BoardState

    /** The fields as one value. */
    function Snapshot(): Session
      reads this
    {
      Session(score, upcomingBlock, isCommitting, isPlaying, isPaused, tickSpeed, boardState)
    }

    ghost predicate Valid()
      reads this
    {
      IsCatalog(shapes) && SessionValid(Snapshot())
    }

    constructor (shapes: Catalog, initialBlock: Block)
      requires IsCatalog(shapes)
      ensures Valid()
      ensures this.shapes == shapes && score == 0 && upcomingBlock == None
      ensures !isCommitting && !isPlaying && !isPaused && tickSpeed == None
      ensures boardState == InitialBoardState(shapes, initialBlock)
    {
      this.shapes := shapes;
      score := 0;
      upcomingBlock := None;
      isCommitting := false;
      isPlaying := false;
      isPaused := false;
      tickSpeed := None;
      boardState := InitialBoardState(shapes, initialBlock);
    }

    /** `startGame`: `startingBlock` becomes the upcoming block and `firstBlock`
        is the block the board's `start` draws. */
    method StartGame(startingBlock: Block, firstBlock: Block)
      requires Valid()
      modifies this
      ensures Valid() && PieceIsClear(boardState) && PieceFits(boardState)
      ensures score == 0 && upcomingBlock == Some(startingBlock)
      ensures !isCommitting && isPlaying && !isPaused && tickSpeed == Some(Normal)
      ensures boardState == BoardReducer(shapes, old(boardState), Start(firstBlock))
    {
      score := 0;
      upcomingBlock := Some(startingBlock);
      isCommitting := false;
      isPlaying := true;
      isPaused := false;
      tickSpeed := Some(Normal);
      StartPieceIsClear(shapes, boardState, firstBlock);
      boardState := BoardReducer(shapes, boardState, Start(firstBlock));
      CollidesIffLeavesOrOverlaps(boardState.board, boardState.droppingRow, boardState.droppingColumn,
                                  boardState.droppingShape);
    }

    /** `togglePause`. */
    method TogglePause()
      requires Valid()
      modifies this
      ensures Valid() && Snapshot() == old(Snapshot()).(isPaused := !old(isPaused))
    {
      isPaused := !isPaused;
    }

    /** `stopGame`: the score and the timer setting are kept. */
    method StopGame()
      requires Valid()
      modifies this
      ensures Valid()
      ensures Snapshot() == old(Snapshot()).(isPlaying := false, upcomingBlock := None, isPaused := false)
    {
      isPlaying := false;
      upcomingBlock := None;
      isPaused := false;
    }

    /** `commitPosition`. The piece must lie inside the board for the stamp. */
    method CommitPosition(nextUpcoming: Block)
      requires Valid() && upcomingBlock.Some? && PieceFits(boardState)
      modifies this
      ensures Valid() && Snapshot() == CommitPositionSpec(shapes, old(Snapshot()), nextUpcoming)
    {
      var next := CommitSession(shapes, Snapshot(), nextUpcoming);
      score, upcomingBlock, isCommitting := next.score, next.upcomingBlock, next.isCommitting;
      isPlaying, isPaused, tickSpeed, boardState := next.isPlaying, next.isPaused, next.tickSpeed, next.boardState;
    }

    /** `gameTick`. */
    method GameTick(nextUpcoming: Block)
      requires Valid() && isPlaying && PieceFits(boardState)
      modifies this
      ensures Valid() && Snapshot() == GameTickSpec(shapes, old(Snapshot()), nextUpcoming)
    {
      if isPaused {
        return;
      } else if isCommitting {
        CommitPosition(nextUpcoming);
      } else {
        var st := boardState;
        var blocked := HasCollisions(st.board, st.droppingRow + 1, st.droppingColumn, st.droppingShape);
        if blocked {
          tickSpeed := Some(Sliding);
          isCommitting := true;
        } else {
          boardState := BoardReducer(shapes, st, Drop);
        }
      }
    }

    /** The timer callback: a tick does nothing unless a game is being played. */
    method Tick(nextUpcoming: Block)
      requires Valid() && (isPlaying ==> PieceFits(boardState))
      modifies this
      ensures Valid() && Snapshot() == TickSpec(shapes, old(Snapshot()), nextUpcoming)
    {
      if isPlaying {
        GameTick(nextUpcoming);
      }
    }

    /** The key-down listener, registered only while a game is played and not
        paused: auto-repeated presses are ignored; down switches to the fast
        cadence; up rotates; left and right move. */
    method HandleKeyDown(key: Key, isRepeat: bool)
      requires Valid()
      modifies this
      ensures Valid()
      ensures score == old(score) && upcomingBlock == old(upcomingBlock) && isCommitting == old(isCommitting)
      ensures isPlaying == old(isPlaying) && isPaused == old(isPaused)
      ensures !old(isPlaying) || old(isPaused) || isRepeat ==>
        tickSpeed == old(tickSpeed) && boardState == old(boardState)
      ensures old(isPlaying) && !old(isPaused) && !isRepeat ==>
        tickSpeed == (if key == ArrowDown then Some(Fast) else old(tickSpeed)) &&
        boardState == match key
          case ArrowUp => BoardReducer(shapes, old(boardState), Move(false, false, true))
          case ArrowLeft => BoardReducer(shapes, old(boardState), Move(true, false, false))
          case ArrowRight => BoardReducer(shapes, old(boardState), Move(false, true, false))
          case _ => old(boardState)
      ensures key != ArrowUp && old(PieceFits(boardState)) ==> PieceFits(boardState)
    {
      if !isPlaying || isPaused || isRepeat {
        return;
      }
      match key
      case ArrowDown =>
        tickSpeed := Some(Fast);
      case ArrowUp =>
        boardState := BoardReducer(shapes, boardState, Move(false, false, true));
      case ArrowLeft =>
        if PieceFits(boardState) {
          TranslationKeepsPieceInside(shapes, boardState, true, false);
        }
        boardState := BoardReducer(shapes, boardState, Move(true, false, false));
      case ArrowRight =>
        if PieceFits(boardState) {
          TranslationKeepsPieceInside(shapes, boardState, false, true);
        }
        boardState := BoardReducer(shapes, boardState, Move(false, true, false));
      case OtherKey =>
    }

    /** The key-up listener: releasing down restores the normal cadence. */
    method HandleKeyUp(key: Key)
      requires Valid()
      modifies this
      ensures Valid()
      ensures Snapshot() == if old(isPlaying) && !old(isPaused) && key == ArrowDown
                            then old(Snapshot()).(tickSpeed := Some(Normal)) else old(Snapshot())
    {
      if isPlaying && !isPaused && key == ArrowDown {
        tickSpeed := Some(Normal);
      }
    }

    /** The board shown to the player: a copy of the stored board with the
        falling piece written in while a game is played. */
    method RenderedBoard() returns (rendered: Grid)
      requires Valid() && (isPlaying ==> PieceFits(boardState))
      ensures |rendered| == BoardHeight && IsGrid(rendered)
      ensures forall r, c :: 0 <= r < BoardHeight && 0 <= c < BoardWidth ==>
        rendered[r][c] ==
          if isPlaying && Covers(boardState.droppingShape, boardState.droppingRow, boardState.droppingColumn, r, c)
          then Filled(boardState.droppingBlock) else boardState.board[r][c]
    {
      rendered := boardState.board;
      if isPlaying {
        rendered := AddShapeToBoard(rendered, boardState.droppingRow, boardState.droppingColumn,
                                    boardState.droppingBlock, boardState.droppingShape);
      }
    }
  }
}

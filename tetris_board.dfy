/** The board state machine: the empty board, rotation, the collision test and
    the four-action reducer over the board and the falling piece. */
module TetrisBoard {
  import opened Types

  /** A `height`-by-`BoardWidth` board of empty cells. */
  function EmptyBoard(height: nat): (board: Grid)
    ensures |board| == height && IsGrid(board)
    ensures forall r, c :: 0 <= r < height && 0 <= c < BoardWidth ==> board[r][c] == Empty
  {
    seq(height, _ => seq(BoardWidth, _ => Empty))
  }

  // ---------------------------------------------------------------------------
  // Rotation

  /** The shape turned a quarter clockwise: the cell at (r, c) moves to (c, n-1-r). */
  function Rotated(shape: Shape): (rotated: Shape)
    requires IsSquare(shape)
    ensures |rotated| == |shape| && IsSquare(rotated)
    ensures forall r, c :: 0 <= r < |shape| && 0 <= c < |shape| ==>
      rotated[c][|shape| - 1 - r] == shape[r][c]
  {
    var n := |shape|;
    seq(n, c requires 0 <= c < n => seq(n, k requires 0 <= k < n => shape[n - 1 - k][c]))
  }

  /** Two quarter turns map (r, c) to (n-1-r, n-1-c). */
  lemma RotatedTwice(shape: Shape)
    requires IsSquare(shape)
    ensures IsSquare(Rotated(Rotated(shape))) && |Rotated(Rotated(shape))| == |shape|
    ensures forall r, c :: 0 <= r < |shape| && 0 <= c < |shape| ==>
      Rotated(Rotated(shape))[r][c] == shape[|shape| - 1 - r][|shape| - 1 - c]
  {
    var n := |shape|;
    var once := Rotated(shape);
    var twice := Rotated(once);
    forall r, c | 0 <= r < n && 0 <= c < n
      ensures twice[r][c] == shape[n - 1 - r][n - 1 - c]
    {
      assert twice[r][n - 1 - (n - 1 - c)] == once[n - 1 - c][r];
      assert once[n - 1 - c][n - 1 - (n - 1 - r)] == shape[n - 1 - r][n - 1 - c];
    }
  }

  /** Four quarter turns give back the original shape. */
  lemma {:induction false} RotatedFourTimes(shape: Shape)
    requires IsSquare(shape)
    ensures Rotated(Rotated(Rotated(Rotated(shape)))) == shape
  {
    var n := |shape|;
    var twice := Rotated(Rotated(shape));
    RotatedTwice(shape);
    RotatedTwice(twice);
    var four := Rotated(Rotated(twice));
    forall r | 0 <= r < n
      ensures four[r] == shape[r]
    {
      forall c | 0 <= c < n
        ensures four[r][c] == shape[r][c]
      {
        assert four[r][c] == twice[n - 1 - r][n - 1 - c];
      }
    }
  }

  /** `rotateBlock`: fills a fresh matrix cell by cell, writing shape[row][column]
      to rotated[column][rows-1-row]. Only square shapes are rotated. */
  method RotateBlock(shape: Shape) returns (rotated: Shape)
    requires IsSquare(shape) && |shape| > 0
    ensures rotated == Rotated(shape)
  {
    var rows := |shape|;
    var columns := |shape[0]|;
    var grid := new bool[rows, columns]((_, _) => false);
    for row := 0 to rows
      invariant forall c, k :: 0 <= c < columns && 0 <= k < rows ==>
        grid[c, k] == (if rows - 1 - k < row then shape[rows - 1 - k][c] else false)
    {
      for column := 0 to columns
        invariant forall c, k :: 0 <= c < columns && 0 <= k < rows ==>
          grid[c, k] == (if rows - 1 - k < row || (rows - 1 - k == row && c < column)
                         then shape[rows - 1 - k][c] else false)
      {
        grid[column, rows - 1 - row] := shape[row][column];
      }
    }
    rotated := seq(rows, c requires 0 <= c < rows reads grid =>
                 seq(columns, k requires 0 <= k < columns reads grid => grid[c, k]));
    forall c | 0 <= c < rows
      ensures rotated[c] == Rotated(shape)[c]
    {
      assert forall k :: 0 <= k < rows ==> rotated[c][k] == shape[rows - 1 - k][c];
    }
  }

  // ---------------------------------------------------------------------------
  // Collision

  /** A shape row with at least one set cell. */
  predicate HasSetCell(row: seq<bool>) {
    true in row
  }

  /** The rows of `shape` that hold at least one set cell, in their order.
      Both the collision test and the stamping skip the other rows. */
  function NonEmptyRows(shape: Shape): (rows: Shape)
    ensures |rows| <= |shape|
    ensures forall k :: 0 <= k < |rows| ==> HasSetCell(rows[k])
  {
    if shape == [] then []
    else (if HasSetCell(shape[0]) then [shape[0]] else []) + NonEmptyRows(shape[1..])
  }

  /** The indices, from `from` on and in increasing order, of the rows of
      `shape` that hold a set cell. */
  function SetRowIndices(shape: Shape, from: nat): (indices: seq<nat>)
    requires from <= |shape|
    decreases |shape| - from
  {
    if from == |shape| then []
    else (if HasSetCell(shape[from]) then [from] else []) + SetRowIndices(shape, from + 1)
  }

  /** The filter keeps exactly the rows holding a set cell, in their order:
      the k-th kept row is the row at the k-th such index. */
  lemma {:induction false} NonEmptyRowsSelects(shape: Shape, from: nat)
    requires from <= |shape|
    ensures var rows := NonEmptyRows(shape[from..]);
            var indices := SetRowIndices(shape, from);
      |rows| == |indices| &&
      (forall k :: 0 <= k < |indices| ==> from <= indices[k] < |shape| && rows[k] == shape[indices[k]]) &&
      (forall k, l :: 0 <= k < l < |indices| ==> indices[k] < indices[l]) &&
      (forall i :: from <= i < |shape| ==> (i in indices <==> HasSetCell(shape[i])))
    decreases |shape| - from
  {
    if from < |shape| {
      NonEmptyRowsSelects(shape, from + 1);
      assert shape[from..][1..] == shape[from + 1..];
      assert shape[from..][0] == shape[from];
    }
  }

  /** A row is kept by the filter iff it is a row of the shape with a set cell. */
  lemma KeepsExactlySetRows(shape: Shape)
    ensures forall row :: row in NonEmptyRows(shape) <==> row in shape && HasSetCell(row)
  {
    NonEmptyRowsSelects(shape, 0);
    var rows := NonEmptyRows(shape);
    var indices := SetRowIndices(shape, 0);
    assert shape[0..] == shape;
    forall row | row in shape && HasSetCell(row)
      ensures row in rows
    {
      var i :| 0 <= i < |shape| && shape[i] == row;
      var k :| 0 <= k < |indices| && indices[k] == i;
    }
  }

  /** A shape without any set cell has no non-empty row. */
  lemma {:induction false} BlankShapeHasNoRows(shape: Shape)
    requires forall row :: row in shape ==> true !in row
    ensures NonEmptyRows(shape) == []
  {
    if shape != [] {
      assert shape[0] in shape;
      forall row | row in shape[1..] ensures true !in row {
        assert row in shape;
      }
      BlankShapeHasNoRows(shape[1..]);
    }
  }

  /** What the collision test checks for one set cell landing at board
      position (r, c): below the bottom, beside the board, or on a locked cell. */
  predicate Blocked(board: Grid, r: nat, c: int)
    requires IsGrid(board)
  {
    r >= |board| || c >= |board[0]| || c < 0 || board[r][c] != Empty
  }

  /** The shape placed with its k-th non-empty row at board row `row + k` and
      its column j at board column `column + j` hits a blocked position. */
  predicate Collides(board: Grid, row: nat, column: int, shape: Shape)
    requires IsGrid(board)
  {
    var rows := NonEmptyRows(shape);
    exists k, j :: 0 <= k < |rows| && 0 <= j < |rows[k]| && rows[k][j] && Blocked(board, row + k, column + j)
  }

  /** Every set cell of the placed shape lies inside a board of `height` rows. */
  predicate Fits(height: nat, row: nat, column: int, shape: Shape) {
    var rows := NonEmptyRows(shape);
    forall k, j :: 0 <= k < |rows| && 0 <= j < |rows[k]| && rows[k][j] ==>
      row + k < height && 0 <= column + j < BoardWidth
  }

  /** Some set cell of the placed shape lands inside the board on a locked cell. */
  predicate Overlaps(board: Grid, row: nat, column: int, shape: Shape)
    requires IsGrid(board)
  {
    var rows := NonEmptyRows(shape);
    exists k, j :: 0 <= k < |rows| && 0 <= j < |rows[k]| && rows[k][j] &&
      row + k < |board| && 0 <= column + j < BoardWidth && board[row + k][column + j] != Empty
  }

  /** A placement collides exactly when it leaves the board or overlaps a locked cell. */
  lemma CollidesIffLeavesOrOverlaps(board: Grid, row: nat, column: int, shape: Shape)
    requires IsGrid(board)
    ensures Collides(board, row, column, shape) <==> !Fits(|board|, row, column, shape) || Overlaps(board, row, column, shape)
  {
    var rows := NonEmptyRows(shape);
    if !Fits(|board|, row, column, shape) {
      var k, j :| 0 <= k < |rows| && 0 <= j < |rows[k]| && rows[k][j] &&
        !(row + k < |board| && 0 <= column + j < BoardWidth);
      assert Blocked(board, row + k, column + j);
    }
  }

  /** A shape with no set cell never collides, wherever it is placed. */
  lemma BlankShapeNeverCollides(board: Grid, row: nat, column: int, shape: Shape)
    requires IsGrid(board)
    requires forall r :: r in shape ==> true !in r
    ensures !Collides(board, row, column, shape)
  {
    BlankShapeHasNoRows(shape);
  }

  /** On an empty board, a placement collides exactly when it leaves the board. */
  lemma EmptyBoardCollidesIffOutside(height: nat, row: nat, column: int, shape: Shape)
    ensures Collides(EmptyBoard(height), row, column, shape) <==> !Fits(height, row, column, shape)
  {
    CollidesIffLeavesOrOverlaps(EmptyBoard(height), row, column, shape);
  }

  /** Some set cell of the k-th non-empty row, at column below `jEnd` when k is
      `kEnd`, or at any column when k is below `kEnd`, lands on a blocked position. */
  ghost predicate CollidesBefore(board: Grid, row: nat, column: int, rows: Shape, kEnd: nat, jEnd: nat)
    requires IsGrid(board)
  {
    exists k, j :: 0 <= k < |rows| && 0 <= j < |rows[k]| && (k < kEnd || (k == kEnd && j < jEnd)) &&
      rows[k][j] && Blocked(board, row + k, column + j)
  }

  /** `hasCollisions`: walks the non-empty rows of the shape and raises a flag
      whenever a set cell lands on a blocked position. */
  method HasCollisions(board: Grid, row: nat, column: int, shape: Shape) returns (hasCollision: bool)
    requires IsGrid(board)
    ensures hasCollision == Collides(board, row, column, shape)
  {
    hasCollision := false;
    var rows := NonEmptyRows(shape);
    for rowIndex := 0 to |rows|
      invariant hasCollision == CollidesBefore(board, row, column, rows, rowIndex, 0)
    {
      var shapeRow := rows[rowIndex];
      for colIndex := 0 to |shapeRow|
        invariant hasCollision == CollidesBefore(board, row, column, rows, rowIndex, colIndex)
      {
        var isSet := shapeRow[colIndex];
        if isSet && (row + rowIndex >= |board| || column + colIndex >= |board[0]| ||
                     column + colIndex < 0 || board[row + rowIndex][column + colIndex] != Empty) {
          hasCollision := true;
        }
      }
    }
  }

  // ---------------------------------------------------------------------------
  // The catalogue and the reducer

  /** What the model needs of the shape catalogue: square, non-empty shapes
      that fit on the board at the spawn position. */
  ghost predicate IsCatalog(shapes: Catalog) {
    forall b :: IsSquare(shapes(b)) && |shapes(b)| > 0 && Fits(BoardHeight, InitialRow, InitialColumn, shapes(b))
  }

  /** The board and the falling piece. */
  datatype BoardState = BoardState(
    board: Grid,
    droppingRow: nat,
    droppingColumn: int,
    droppingBlock: Block,
    droppingShape: Shape)

  /** The four actions; the random first block of `start` is an argument. */
  datatype Action =
    | Start(firstBlock: Block)
    | Drop
    | Commit(newBoard: Grid, newBlock: Block)
    | Move(isPressingLeft: bool, isPressingRight: bool, isRotating: bool)

  /** A full-height board and a square piece. */
  predicate WellFormed(state: BoardState) {
    |state.board| == BoardHeight && IsGrid(state.board) &&
    IsSquare(state.droppingShape) && |state.droppingShape| > 0
  }

  /** The board handed to `commit` is no taller than the board. */
  predicate ActionWellFormed(action: Action) {
    action.Commit? ==> |action.newBoard| <= BoardHeight && IsGrid(action.newBoard)
  }

  /** The falling piece lies inside the board. */
  predicate PieceFits(state: BoardState) {
    Fits(|state.board|, state.droppingRow, state.droppingColumn, state.droppingShape)
  }

  /** The falling piece lies inside the board and on empty cells only. */
  predicate PieceIsClear(state: BoardState)
    requires IsGrid(state.board)
  {
    !Collides(state.board, state.droppingRow, state.droppingColumn, state.droppingShape)
  }

  /** The state the board hook starts from, before any `start`. */
  function InitialBoardState(shapes: Catalog, initialBlock: Block): (state: BoardState)
    requires IsCatalog(shapes)
    ensures WellFormed(state) && state.droppingBlock == initialBlock
    ensures forall r, c :: 0 <= r < BoardHeight && 0 <= c < BoardWidth ==> state.board[r][c] == Empty
  {
    BoardState(EmptyBoard(BoardHeight), 0, 0, initialBlock, shapes(initialBlock))
  }

  /** `rows` with empty rows added on top up to the full board height. */
  function PadToHeight(rows: Grid): (padded: Grid)
    requires |rows| <= BoardHeight && IsGrid(rows)
    ensures |padded| == BoardHeight && IsGrid(padded)
    ensures padded[BoardHeight - |rows|..] == rows
    ensures forall r, c :: 0 <= r < BoardHeight - |rows| && 0 <= c < BoardWidth ==> padded[r][c] == Empty
  {
    EmptyBoard(BoardHeight - |rows|) + rows
  }

  /** Padding a board that already has full height adds nothing. */
  lemma PadFullBoardIsIdentity(rows: Grid)
    requires |rows| == BoardHeight && IsGrid(rows)
    ensures PadToHeight(rows) == rows
  {
  }

  /** The column step of a move: left wins over right. */
  function ColumnOffset(isPressingLeft: bool, isPressingRight: bool): (offset: int)
    ensures offset == -1 <==> isPressingLeft
    ensures offset == 1 <==> !isPressingLeft && isPressingRight
    ensures offset == 0 <==> !isPressingLeft && !isPressingRight
  {
    if isPressingLeft then -1 else if isPressingRight then 1 else 0
  }

  /** `boardReducer`. `move` tests the candidate column with the shape as it is
      and, when that placement is free, installs the rotated shape. */
  function BoardReducer(shapes: Catalog, state: BoardState, action: Action): (next: BoardState)
    requires IsCatalog(shapes) && WellFormed(state) && ActionWellFormed(action)
    ensures WellFormed(next)
    ensures action.Start? ==>
      next.droppingRow == InitialRow && next.droppingColumn == InitialColumn &&
      next.droppingBlock == action.firstBlock && next.droppingShape == shapes(action.firstBlock) &&
      forall r, c :: 0 <= r < BoardHeight && 0 <= c < BoardWidth ==> next.board[r][c] == Empty
    ensures action.Drop? ==>
      next.droppingRow == state.droppingRow + 1 && next.board == state.board &&
      next.droppingColumn == state.droppingColumn && next.droppingBlock == state.droppingBlock &&
      next.droppingShape == state.droppingShape
    ensures action.Commit? ==>
      next.droppingRow == InitialRow && next.droppingColumn == InitialColumn &&
      next.droppingBlock == action.newBlock && next.droppingShape == shapes(action.newBlock) &&
      next.board[BoardHeight - |action.newBoard|..] == action.newBoard &&
      forall r, c :: 0 <= r < BoardHeight - |action.newBoard| && 0 <= c < BoardWidth ==> next.board[r][c] == Empty
    ensures action.Move? ==>
      next.board == state.board && next.droppingRow == state.droppingRow &&
      next.droppingBlock == state.droppingBlock
    ensures action.Move? ==>
      var offset := ColumnOffset(action.isPressingLeft, action.isPressingRight);
      if Collides(state.board, state.droppingRow, state.droppingColumn + offset, state.droppingShape)
      then next == state
      else next.droppingColumn == state.droppingColumn + offset &&
           next.droppingShape == (if action.isRotating then Rotated(state.droppingShape) else state.droppingShape)
  {
    match action
    case Start(firstBlock) =>
      BoardState(EmptyBoard(BoardHeight), InitialRow, InitialColumn, firstBlock, shapes(firstBlock))
    case Drop =>
      state.(droppingRow := state.droppingRow + 1)
    case Commit(newBoard, newBlock) =>
      BoardState(PadToHeight(newBoard), 0, 3, newBlock, shapes(newBlock))
    case Move(isPressingLeft, isPressingRight, isRotating) =>
      var rotatedShape := if isRotating then Rotated(state.droppingShape) else state.droppingShape;
      var columnOffset := ColumnOffset(isPressingLeft, isPressingRight);
      if !Collides(state.board, state.droppingRow, state.droppingColumn + columnOffset, state.droppingShape)
      then state.(droppingColumn := state.droppingColumn + columnOffset, droppingShape := rotatedShape)
      else state
  }

  /** `start` spawns a piece that lies inside the (empty) board. */
  lemma StartPieceIsClear(shapes: Catalog, state: BoardState, firstBlock: Block)
    requires IsCatalog(shapes) && WellFormed(state)
    ensures PieceIsClear(BoardReducer(shapes, state, Start(firstBlock)))
  {
    var next := BoardReducer(shapes, state, Start(firstBlock));
    assert next.board == EmptyBoard(BoardHeight);
    EmptyBoardCollidesIffOutside(BoardHeight, InitialRow, InitialColumn, shapes(firstBlock));
  }

  /** A move without rotation keeps a clear piece clear: the only placement it
      can install is the one it has just checked for collisions. */
  lemma TranslationKeepsPieceClear(shapes: Catalog, state: BoardState, isPressingLeft: bool, isPressingRight: bool)
    requires IsCatalog(shapes) && WellFormed(state) && PieceIsClear(state)
    ensures PieceIsClear(BoardReducer(shapes, state, Move(isPressingLeft, isPressingRight, false)))
  {
  }

  /** A move never takes a piece that fits outside the board, unless it rotates. */
  lemma TranslationKeepsPieceInside(shapes: Catalog, state: BoardState, isPressingLeft: bool, isPressingRight: bool)
    requires IsCatalog(shapes) && WellFormed(state) && PieceFits(state)
    ensures PieceFits(BoardReducer(shapes, state, Move(isPressingLeft, isPressingRight, false)))
  {
    var offset := ColumnOffset(isPressingLeft, isPressingRight);
    CollidesIffLeavesOrOverlaps(state.board, state.droppingRow, state.droppingColumn + offset, state.droppingShape);
  }

  /** Because `move` tests the unrotated shape, a rotation can install a shape
      that sticks out of the board: a one-column piece at the right wall,
      turned into a one-row piece, reaches column 10. */
  lemma RotationCanLeaveBoard(shapes: Catalog, block: Block)
    requires IsCatalog(shapes)
    ensures var state := BoardState(EmptyBoard(BoardHeight), 0, 9, block, [[true, false], [true, false]]);
      WellFormed(state) && PieceIsClear(state) &&
      !PieceFits(BoardReducer(shapes, state, Move(false, false, true)))
  {
    var shape: Shape := [[true, false], [true, false]];
    assert IsSquare(shape);
    assert Fits(BoardHeight, 0, 9, shape) by {
      assert shape[1..] == [[true, false]];
      assert [[true, false]][1..] == [];
      assert NonEmptyRows(shape) == shape;
    }
    EmptyBoardCollidesIffOutside(BoardHeight, 0, 9, shape);
    var rotated := Rotated(shape);
    assert !Fits(BoardHeight, 0, 9, rotated) by {
      assert rotated[0][1] == shape[0][0];
      assert NonEmptyRows(rotated)[0] == rotated[0];
    }
  }

  /** The board a commit installs is the board the controller supplies when
      that board already has full height: padding twice is harmless. */
  lemma CommitOfFullBoardKeepsIt(shapes: Catalog, state: BoardState, newBoard: Grid, newBlock: Block)
    requires IsCatalog(shapes) && WellFormed(state)
    requires |newBoard| <= BoardHeight && IsGrid(newBoard)
    ensures BoardReducer(shapes, state, Commit(PadToHeight(newBoard), newBlock)).board == PadToHeight(newBoard)
  {
    PadFullBoardIsIdentity(PadToHeight(newBoard));
  }
}

/** Inputs on which IsPossibleMovement as written in Board.cpp departs
    from what its comment promises, checked against the corrected scan. The
    two concrete ones use a table with one piece in one rotation whose only
    block sits at local row 0, column 0, and a board whose every cell is FREE;
    the last lemma covers every placement that starts above the board.
 */
module MovementFindings {
  import opened Grids
  import opened Pieces
  import opened Board
  import opened Movement

  /** Every placement whose top row lies above the board (pY < 0) reaches an
      out-of-range read, whatever the piece and the board: the very first
      cell, local (0, 0), lies outside the board, and its out-of-bounds check
      reads the shape at column y1 = pY, which is negative. */
  lemma AboveBoardUndefined(b: BoardState, pX: int, pY: int, p: int, r: int)
    requires Valid(b) && IsPiece(b.pieces, p, r) && pY < 0
    ensures IsPossibleMovementAsWritten(b, pX, pY, p, r) == UndefinedBehaviour
  {
    assert CellCheck(AsWritten, b, pX, pY, p, r, 0, 0) == Undefined;
  }

  /** The 5x5 matrix whose only block is at row 0, column 0. */
  function CornerShape(): (m: seq<seq<int>>)
    ensures IsShape(m)
    ensures forall i, j :: IsLocal(i, j) ==> (m[i][j] != NO_BLOCK <==> i == 0 && j == 0)
  {
    var empty := [NO_BLOCK, NO_BLOCK, NO_BLOCK, NO_BLOCK, NO_BLOCK];
    [[NORMAL_BLOCK, NO_BLOCK, NO_BLOCK, NO_BLOCK, NO_BLOCK], empty, empty, empty, empty]
  }

  /** A table of one kind with one rotation: the corner shape, spawned at the
      origin. */
  function CornerTable(): (t: PieceTable)
    ensures ValidTable(t) && IsPiece(t, 0, 0)
    ensures forall i, j :: IsLocal(i, j) ==> (Occupied(t, 0, 0, i, j) <==> i == 0 && j == 0)
  {
    PieceTable([[CornerShape()]], [[[0, 0]]])
  }

  /** The empty board holding the corner table. */
  function EmptyCornerBoard(): (b: BoardState)
    ensures Valid(b) && b.pieces == CornerTable() && AllFree(b.cells)
  {
    BoardState(EmptyGrid(), CornerTable())
  }

  /** Placed at (3, 0) the corner piece covers the single cell (3, 0), which
      is inside the board and FREE, yet the code as written answers false:
      for matrix column 4 (board column 7, outside the board) it reads the
      shape at column y1 = 0 instead of x2 = 4 and finds the block of
      column 0. The corrected scan answers true. */
  lemma SpuriousRejection()
    ensures IsPossibleMovementAsWritten(EmptyCornerBoard(), 3, 0, 0, 0) == Answer(false)
    ensures IsPossibleMovement(EmptyCornerBoard(), 3, 0, 0, 0)
  {
    var b := EmptyCornerBoard();
    assert InGrid(3, 0, 0);
    assert ScanColumn(AsWritten, b, 3, 0, 0, 0, 4, 0) == Reject;
    assert ScanColumns(AsWritten, b, 3, 0, 0, 0, 4) == Answer(false);
    forall x2 | 0 <= x2 < 4
      ensures ScanColumn(AsWritten, b, 3, 0, 0, 0, x2, 0) == Continue
    {
      assert ColumnInside(3, 0, x2, 0);
      forall i | 0 <= i < PIECE_BLOCKS
        ensures CellOk(b, 3, 0, 0, 0, i, x2)
      {
        assert InGrid(3 + x2, i, 0);
      }
    }
    assert ScanColumns(AsWritten, b, 3, 0, 0, 0, 3) == Answer(false);
    assert ScanColumns(AsWritten, b, 3, 0, 0, 0, 2) == Answer(false);
    assert ScanColumns(AsWritten, b, 3, 0, 0, 0, 1) == Answer(false);
  }

  /** Placed at (-1, 1) the corner piece's block lands on column -1, outside
      the board. The code as written reads the shape at column y1 = 1, finds
      no block there, passes the out-of-bounds test and then calls
      IsFreeBlock(-1, 1), a read before the start of the board array. The
      corrected scan answers false. */
  lemma UnguardedFreeBlockRead()
    ensures IsPossibleMovementAsWritten(EmptyCornerBoard(), -1, 1, 0, 0) == UndefinedBehaviour
    ensures !IsPossibleMovement(EmptyCornerBoard(), -1, 1, 0, 0)
  {
    var b := EmptyCornerBoard();
    assert CellCheck(AsWritten, b, -1, 1, 0, 0, 0, 0) == Undefined;
    assert !CellOk(b, -1, 1, 0, 0, 0, 0);
  }
}

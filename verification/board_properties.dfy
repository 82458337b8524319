/** Properties of the board operations that relate several calls: what
    construction and InitBoard leave behind, what storing twice does, how
    storing interacts with the placement test, and which cells the game-over
    test reads.
 */
module BoardProperties {
  import opened Grids
  import opened Pieces
  import opened Rows
  import opened Board
  import opened Movement

  /** The constructor does not clear the grid: some memory contents make a
      freshly constructed board report game over and hold a FILLED cell. */
  lemma ConstructionDoesNotClear(t: PieceTable)
    requires ValidTable(t)
    ensures exists memory :: (WellFormed(memory) && IsGameOver(NewBoard(t, memory)) &&
                               !IsFreeBlock(NewBoard(t, memory), 0, 0))
  {
    var memory := Set0(EmptyGrid(), 0, 0, POS_FILLED);
    assert NewBoard(t, memory).cells[0][0][0] == POS_FILLED;
    assert IsGameOver(NewBoard(t, memory));
  }

  /** After InitBoard the game is not over, every cell of the playing layer is
      free, the layer holds only FREE and FILLED values, and it counts no
      FILLED cell. */
  lemma InitBoardStartsEmpty(b: BoardState)
    requires Valid(b)
    ensures !IsGameOver(InitBoard(b))
    ensures forall x, y :: InBoard(x, y) ==> IsFreeBlock(InitBoard(b), x, y)
    ensures TwoValued(InitBoard(b).cells)
    ensures FilledCells(InitBoard(b).cells) == 0
  {
    var g := InitBoard(b).cells;
    forall x, y | InBoard(x, y)
      ensures g[x][y][0] == POS_FREE
    {
      assert InGrid(x, y, 0);
    }
    var rows := RowsOf(g);
    forall i, x | 0 <= i < |rows| && 0 <= x < |rows[i]|
      ensures rows[i][x] != POS_FILLED
    {
      assert rows[i][x] == g[x][i][0];
    }
    NoFilled(rows);
  }

  /** Storing the same piece at the same place a second time changes
      nothing. */
  lemma StoreIdempotent(b: BoardState, pX: int, pY: int, p: int, r: int)
    requires Valid(b) && IsPiece(b.pieces, p, r) && Fits(b.pieces, pX, pY, p, r)
    ensures StorePiece(StorePiece(b, pX, pY, p, r), pX, pY, p, r) == StorePiece(b, pX, pY, p, r)
  {
    var once := StorePiece(b, pX, pY, p, r);
    var twice := StorePiece(once, pX, pY, p, r);
    GridExt(twice.cells, once.cells);
  }

  /** StorePiece never frees a cell: a FILLED cell stays FILLED, and a cell
      that was not free is still not free. */
  lemma StoreNeverFrees(b: BoardState, pX: int, pY: int, p: int, r: int)
    requires Valid(b) && IsPiece(b.pieces, p, r) && Fits(b.pieces, pX, pY, p, r)
    ensures forall x, y :: InBoard(x, y) && !IsFreeBlock(b, x, y) ==>
      !IsFreeBlock(StorePiece(b, pX, pY, p, r), x, y)
  {
    var b' := StorePiece(b, pX, pY, p, r);
    forall x, y | InBoard(x, y) && !IsFreeBlock(b, x, y)
      ensures !IsFreeBlock(b', x, y)
    {
      assert InGrid(x, y, 0);
    }
  }

  /** After a store, a cell is free exactly when it was free before and the
      piece does not cover it. */
  lemma FreeBlockAfterStore(b: BoardState, pX: int, pY: int, p: int, r: int)
    requires Valid(b) && IsPiece(b.pieces, p, r) && Fits(b.pieces, pX, pY, p, r)
    ensures forall x, y :: InBoard(x, y) ==>
      (IsFreeBlock(StorePiece(b, pX, pY, p, r), x, y) <==>
        IsFreeBlock(b, x, y) && !Covers(b.pieces, pX, pY, p, r, x, y))
  {
    var b' := StorePiece(b, pX, pY, p, r);
    forall x, y | InBoard(x, y)
      ensures IsFreeBlock(b', x, y) <==> IsFreeBlock(b, x, y) && !Covers(b.pieces, pX, pY, p, r, x, y)
    {
      assert InGrid(x, y, 0);
    }
  }

  /** A stored piece that has at least one block collides with itself: the
      corrected placement test refuses the same piece at the same place
      afterwards, and the code as written never accepts it (it refuses, or
      its run reads out of range). */
  lemma StoredPieceBlocksItself(b: BoardState, pX: int, pY: int, p: int, r: int, i: int, j: int)
    requires Valid(b) && IsPiece(b.pieces, p, r) && Fits(b.pieces, pX, pY, p, r)
    requires IsLocal(i, j) && Occupied(b.pieces, p, r, i, j)
    ensures !IsPossibleMovement(StorePiece(b, pX, pY, p, r), pX, pY, p, r)
    ensures IsPossibleMovementAsWritten(StorePiece(b, pX, pY, p, r), pX, pY, p, r) != Answer(true)
  {
    var b' := StorePiece(b, pX, pY, p, r);
    assert InGrid(pX + j, pY + i, 0);
    assert Covers(b.pieces, pX, pY, p, r, pX + j, pY + i);
    assert !CellOk(b', pX, pY, p, r, i, j);
  }

  /** On a board whose playing layer is all FREE the corrected placement
      test accepts a placement exactly when every block of the piece lands
      inside the board. The code as written accepts only such placements, and
      decides exactly when the 5x5 window lies inside the board; outside it,
      it can refuse a placement that fits (MovementFindings.SpuriousRejection). */
  lemma PossibleOnEmptyBoard(b: BoardState, pX: int, pY: int, p: int, r: int)
    requires Valid(b) && IsPiece(b.pieces, p, r)
    requires forall x, y :: InBoard(x, y) ==> b.cells[x][y][0] == POS_FREE
    ensures IsPossibleMovement(b, pX, pY, p, r) <==> Fits(b.pieces, pX, pY, p, r)
    ensures IsPossibleMovementAsWritten(b, pX, pY, p, r) == Answer(true) ==> Fits(b.pieces, pX, pY, p, r)
    ensures WindowInside(pX, pY) ==>
              IsPossibleMovementAsWritten(b, pX, pY, p, r) == Answer(Fits(b.pieces, pX, pY, p, r))
  {
    if Fits(b.pieces, pX, pY, p, r) {
      forall i, j | IsLocal(i, j)
        ensures CellOk(b, pX, pY, p, r, i, j)
      {
      }
    } else {
      var i, j :| IsLocal(i, j) && Occupied(b.pieces, p, r, i, j) && !InBoard(pX + j, pY + i);
      assert !CellOk(b, pX, pY, p, r, i, j);
    }
  }

  /** A full top row ends the game: its cell in column 0 is FILLED. */
  lemma FullTopRowIsGameOver(b: BoardState)
    requires Valid(b) && Full(Row(b.cells, 0))
    ensures IsGameOver(b)
  {
    assert Row(b.cells, 0)[0] == b.cells[0][0][0];
  }

  /** The game-over test reads column 0 only: a board with a block in the top
      row away from column 0 is not over, and one with a block low down in
      column 0 is. */
  lemma GameOverReadsColumnZero(t: PieceTable)
    requires ValidTable(t)
    ensures var b := NewBoard(t, Set0(EmptyGrid(), 3, 0, POS_FILLED));
      !IsGameOver(b) && !IsFreeBlock(b, 3, 0)
    ensures var b := NewBoard(t, Set0(EmptyGrid(), 0, BOARD_HEIGHT - 1, POS_FILLED));
      IsGameOver(b) && forall x :: 0 <= x < BOARD_WIDTH ==> IsFreeBlock(b, x, 0)
  {
    var g := Set0(EmptyGrid(), 3, 0, POS_FILLED);
    forall y | 0 <= y < BOARD_HEIGHT
      ensures g[0][y][0] != POS_FILLED
    {
      assert InGrid(0, y, 0);
    }
    var h := Set0(EmptyGrid(), 0, BOARD_HEIGHT - 1, POS_FILLED);
    assert h[0][BOARD_HEIGHT - 1][0] == POS_FILLED;
    forall x | 0 <= x < BOARD_WIDTH
      ensures h[x][0][0] == POS_FREE
    {
      assert InGrid(x, 0, 0);
    }
  }
}

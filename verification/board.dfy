/** The board of the falling-block game (Board.cpp) as a pure value: the grid
    together with the piece table it reads shapes from. Each loop of the C++
    code, except InitBoard's, is a recursive function here that walks the same
    indices in the same order, and each contract says, cell by cell, what the
    loop leaves behind, except ClearFrom's, whose effect on the rows is stated
    in module LineClearing. InitBoard's loops write POS_FREE everywhere, so
    the model returns the empty grid directly.

    Every operation except InitBoard reads and writes layer z = 0 only; the
    contracts say that the other layers are left as they were.
 */
module Board {
  import opened Grids
  import opened Pieces
  import opened Rows

  /** The board: its cells (mBoard) and the piece table it was built with
      (mPieces). */
  datatype BoardState = BoardState(cells: Grid, pieces: PieceTable)

  ghost predicate Valid(b: BoardState) {
    WellFormed(b.cells) && ValidTable(b.pieces)
  }

  /** The constructor stores the piece table and nothing else: the grid holds
      whatever the memory held, here the parameter `memory`. */
  function NewBoard(t: PieceTable, memory: Grid): (b: BoardState)
    requires ValidTable(t) && WellFormed(memory)
    ensures Valid(b) && b.pieces == t
  {
    BoardState(memory, t)
  }

  /** Sets every cell of every layer to POS_FREE. */
  function InitBoard(b: BoardState): (b': BoardState)
    requires Valid(b)
    ensures Valid(b') && b'.pieces == b.pieces
    ensures AllFree(b'.cells)
  {
    BoardState(EmptyGrid(), b.pieces)
  }

  // ---------------------------------------------------------------------
  // Storing a piece

  /** Board cell (x, y) lies under an occupied cell of piece (p, r) whose
      5x5 matrix has its top-left corner at (pX, pY). Matrix column j lands
      on board x = pX + j and matrix row i on board y = pY + i. */
  predicate Covers(t: PieceTable, pX: int, pY: int, p: int, r: int, x: int, y: int)
    requires ValidTable(t) && IsPiece(t, p, r)
  {
    && pX <= x < pX + PIECE_BLOCKS
    && pY <= y < pY + PIECE_BLOCKS
    && Occupied(t, p, r, y - pY, x - pX)
  }

  /** Every occupied cell of the piece lands inside the board. */
  ghost predicate Fits(t: PieceTable, pX: int, pY: int, p: int, r: int)
    requires ValidTable(t) && IsPiece(t, p, r)
  {
    forall i, j :: IsLocal(i, j) && Occupied(t, p, r, i, j) ==> InBoard(pX + j, pY + i)
  }

  /** The inner loop of StorePiece: matrix column x2, rows y2 to 4. */
  function StoreColumn(g: Grid, t: PieceTable, pX: int, pY: int, p: int, r: int, x2: int, y2: int): (h: Grid)
    requires WellFormed(g) && ValidTable(t) && IsPiece(t, p, r) && Fits(t, pX, pY, p, r)
    requires 0 <= x2 < PIECE_BLOCKS && 0 <= y2 <= PIECE_BLOCKS
    ensures WellFormed(h)
    ensures forall x, y, z :: InGrid(x, y, z) ==>
      h[x][y][z] ==
        if z == 0 && x == pX + x2 && pY + y2 <= y && Covers(t, pX, pY, p, r, x, y)
        then POS_FILLED else g[x][y][z]
    decreases PIECE_BLOCKS - y2
  {
    if y2 == PIECE_BLOCKS then g
    else
      var g' := if GetBlockType(t, p, r, y2, x2) != 0 then Set0(g, pX + x2, pY + y2, POS_FILLED) else g;
      StoreColumn(g', t, pX, pY, p, r, x2, y2 + 1)
  }

  /** The outer loop of StorePiece: matrix columns x2 to 4. */
  function StoreColumns(g: Grid, t: PieceTable, pX: int, pY: int, p: int, r: int, x2: int): (h: Grid)
    requires WellFormed(g) && ValidTable(t) && IsPiece(t, p, r) && Fits(t, pX, pY, p, r)
    requires 0 <= x2 <= PIECE_BLOCKS
    ensures WellFormed(h)
    ensures forall x, y, z :: InGrid(x, y, z) ==>
      h[x][y][z] ==
        if z == 0 && pX + x2 <= x && Covers(t, pX, pY, p, r, x, y)
        then POS_FILLED else g[x][y][z]
    decreases PIECE_BLOCKS - x2
  {
    if x2 == PIECE_BLOCKS then g
    else StoreColumns(StoreColumn(g, t, pX, pY, p, r, x2, 0), t, pX, pY, p, r, x2 + 1)
  }

  /** Stamps the occupied cells of piece (p, r) onto the playing layer with
      the matrix's top-left corner at (pX, pY). Exactly the covered cells
      become FILLED; every other cell, on every layer, keeps its value. */
  function StorePiece(b: BoardState, pX: int, pY: int, p: int, r: int): (b': BoardState)
    requires Valid(b) && IsPiece(b.pieces, p, r) && Fits(b.pieces, pX, pY, p, r)
    ensures Valid(b') && b'.pieces == b.pieces
    ensures forall x, y, z :: InGrid(x, y, z) ==>
      b'.cells[x][y][z] ==
        if z == 0 && Covers(b.pieces, pX, pY, p, r, x, y) then POS_FILLED else b.cells[x][y][z]
    ensures SameUpperLayers(b.cells, b'.cells)
    ensures TwoValued(b.cells) ==> TwoValued(b'.cells)
  {
    var h := StoreColumns(b.cells, b.pieces, pX, pY, p, r, 0);
    StoreColumnsLayers(b.cells, b.pieces, pX, pY, p, r);
    BoardState(h, b.pieces)
  }

  /** Storing writes FILLED to the playing layer and nothing else. */
  lemma StoreColumnsLayers(g: Grid, t: PieceTable, pX: int, pY: int, p: int, r: int)
    requires WellFormed(g) && ValidTable(t) && IsPiece(t, p, r) && Fits(t, pX, pY, p, r)
    ensures SameUpperLayers(g, StoreColumns(g, t, pX, pY, p, r, 0))
    ensures TwoValued(g) ==> TwoValued(StoreColumns(g, t, pX, pY, p, r, 0))
  {
    var h := StoreColumns(g, t, pX, pY, p, r, 0);
    forall x, y | InBoard(x, y)
      ensures h[x][y][0] == g[x][y][0] || h[x][y][0] == POS_FILLED
    {
      assert InGrid(x, y, 0);
    }
  }

  // ---------------------------------------------------------------------
  // Queries

  /** Whether cell (pX, pY) of the playing layer is FREE. */
  function IsFreeBlock(b: BoardState, pX: int, pY: int): (free: bool)
    requires Valid(b) && InBoard(pX, pY)
    ensures free <==> b.cells[pX][pY][0] == POS_FREE
    ensures TwoValued(b.cells) ==> (free <==> b.cells[pX][pY][0] != POS_FILLED)
  {
    if b.cells[pX][pY][0] == POS_FREE then true else false
  }

  /** The loop of IsGameOver from row y on: it reads column x = 0 only. */
  function ScanColumnZero(g: Grid, y: int): (found: bool)
    requires WellFormed(g) && 0 <= y <= BOARD_HEIGHT
    ensures found <==> exists y' :: y <= y' < BOARD_HEIGHT && g[0][y'][0] == POS_FILLED
    decreases BOARD_HEIGHT - y
  {
    if y == BOARD_HEIGHT then false
    else if g[0][y][0] == POS_FILLED then true
    else ScanColumnZero(g, y + 1)
  }

  /** True exactly when some cell of column x = 0 of the playing layer is
      FILLED. The comment beside the code speaks of the first row (y = 0),
      but the loop walks y down the first column. */
  function IsGameOver(b: BoardState): (over: bool)
    requires Valid(b)
    ensures over <==> exists y :: 0 <= y < BOARD_HEIGHT && b.cells[0][y][0] == POS_FILLED
  {
    ScanColumnZero(b.cells, 0)
  }

  // ---------------------------------------------------------------------
  // Deleting lines

  /** The inner loop of DeleteLine: copies row y - 1 into row y for columns
      x to BOARD_WIDTH - 1. */
  function CopyRowDown(g: Grid, y: int, x: int): (h: Grid)
    requires WellFormed(g) && 1 <= y < BOARD_HEIGHT && 0 <= x <= BOARD_WIDTH
    ensures WellFormed(h)
    ensures forall i, j, k :: InGrid(i, j, k) ==>
      h[i][j][k] == if k == 0 && j == y && x <= i then g[i][y - 1][0] else g[i][j][k]
    decreases BOARD_WIDTH - x
  {
    if x == BOARD_WIDTH then g
    else CopyRowDown(Set0(g, x, y, g[x][y - 1][0]), y, x + 1)
  }

  /** The outer loop of DeleteLine, walking y down from pY to 1. Row y is
      overwritten before any row above it, so every copy reads a row that the
      loop has not yet touched. */
  function ShiftDown(g: Grid, pY: int): (h: Grid)
    requires WellFormed(g) && pY < BOARD_HEIGHT
    ensures WellFormed(h)
    ensures forall x, y, z :: InGrid(x, y, z) ==>
      h[x][y][z] == if z == 0 && 1 <= y <= pY then g[x][y - 1][0] else g[x][y][z]
    decreases pY
  {
    if pY <= 0 then g
    else
      var g1 := CopyRowDown(g, pY, 0);
      var h := ShiftDown(g1, pY - 1);
      assert forall x, y, z :: InGrid(x, y, z) ==>
        h[x][y][z] == if z == 0 && 1 <= y <= pY then g[x][y - 1][0] else g[x][y][z] by {
        forall x, y, z | InGrid(x, y, z)
          ensures h[x][y][z] == if z == 0 && 1 <= y <= pY then g[x][y - 1][0] else g[x][y][z]
        {
          if z == 0 && 1 <= y <= pY {
            assert InGrid(x, y - 1, 0);
          }
        }
      }
      h
  }

  /** Moves every row above row pY one row down, overwriting row pY. Row 0
      keeps its contents (it is not cleared) and the rows below pY do not
      change. */
  function DeleteLine(b: BoardState, pY: int): (b': BoardState)
    requires Valid(b) && pY < BOARD_HEIGHT
    ensures Valid(b') && b'.pieces == b.pieces
    ensures pY <= 0 ==> b' == b
    ensures forall x, y, z :: InGrid(x, y, z) ==>
      b'.cells[x][y][z] == if z == 0 && 1 <= y <= pY then b.cells[x][y - 1][0] else b.cells[x][y][z]
    ensures SameUpperLayers(b.cells, b'.cells)
    ensures TwoValued(b.cells) ==> TwoValued(b'.cells)
  {
    BoardState(ShiftDown(b.cells, pY), b.pieces)
  }

  /** The while loop of DeletePossibleLines: the first column at or after x
      whose cell in row y is not FILLED, or BOARD_WIDTH if there is none. */
  function FirstNotFilled(g: Grid, y: int, x: int): (k: int)
    requires WellFormed(g) && 0 <= y < BOARD_HEIGHT && 0 <= x <= BOARD_WIDTH
    ensures x <= k <= BOARD_WIDTH
    ensures forall i :: x <= i < k ==> g[i][y][0] == POS_FILLED
    ensures k < BOARD_WIDTH ==> g[k][y][0] != POS_FILLED
    decreases BOARD_WIDTH - x
  {
    if x == BOARD_WIDTH then x
    else if g[x][y][0] != POS_FILLED then x
    else FirstNotFilled(g, y, x + 1)
  }

  /** The scan finds row y complete exactly when every cell of the row is
      FILLED. */
  function RowComplete(g: Grid, y: int): (complete: bool)
    requires WellFormed(g) && 0 <= y < BOARD_HEIGHT
    ensures complete <==> Full(Row(g, y))
  {
    FirstNotFilled(g, y, 0) == BOARD_WIDTH
  }

  /** The for loop of DeletePossibleLines from row y on: each complete row
      is deleted, by the row shift of DeleteLine, as the scan reaches it. */
  function ClearFrom(g: Grid, y: int): (h: Grid)
    requires WellFormed(g) && 0 <= y <= BOARD_HEIGHT
    ensures WellFormed(h)
    decreases BOARD_HEIGHT - y
  {
    if y == BOARD_HEIGHT then g
    else
      var g1 := if RowComplete(g, y) then ShiftDown(g, y) else g;
      ClearFrom(g1, y + 1)
  }

  /** Deletes every complete row, scanning from the top row (y = 0) down.
      What this does to the rows is stated in module LineClearing. */
  function DeletePossibleLines(b: BoardState): (b': BoardState)
    requires Valid(b)
    ensures Valid(b') && b'.pieces == b.pieces
  {
    BoardState(ClearFrom(b.cells, 0), b.pieces)
  }
}

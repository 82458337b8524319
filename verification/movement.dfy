/** IsPossibleMovement (Board.cpp), the placement test.

    The C++ loop walks the 5x5 matrix column by column (x2 outer, y2 inner)
    and returns false at the first cell that fails. Two of its reads can
    leave the arrays: the out-of-bounds branch reads the shape table at
    column y1, a board row, where x2 is meant; and the collision branch calls
    IsFreeBlock(x1, y1) with x1 possibly outside the board. Neither memory
    nor its contents is modelled: a read outside an array ends the run with
    the outcome UndefinedBehaviour.

    Both the code as written and the corrected code (column x2 in the
    out-of-bounds branch) are defined by one scan, told apart by a Variant.
 */
module Movement {
  import opened Grids
  import opened Pieces
  import opened Board

  datatype Variant = AsWritten | Corrected

  /** What a run of the test yields. */
  datatype Outcome = Answer(possible: bool) | UndefinedBehaviour

  /** The state of the scan after one cell. */
  datatype Step = Continue | Reject | Undefined

  /** Local cell (i, j) of the piece, placed at (pX, pY), is either empty or
      lands on a FREE cell inside the board. */
  ghost predicate CellOk(b: BoardState, pX: int, pY: int, p: int, r: int, i: int, j: int)
    requires Valid(b) && IsPiece(b.pieces, p, r) && IsLocal(i, j)
  {
    Occupied(b.pieces, p, r, i, j) ==>
      InBoard(pX + j, pY + i) && b.cells[pX + j][pY + i][0] == POS_FREE
  }

  /** The piece can be placed at (pX, pY): every occupied cell lands on a
      FREE cell inside the board. */
  ghost predicate Placeable(b: BoardState, pX: int, pY: int, p: int, r: int)
    requires Valid(b) && IsPiece(b.pieces, p, r)
  {
    forall i, j :: IsLocal(i, j) ==> CellOk(b, pX, pY, p, r, i, j)
  }

  /** Rows y2..4 of matrix column x2, placed at (pX, pY), lie inside the
      board. */
  predicate ColumnInside(pX: int, pY: int, x2: int, y2: int) {
    y2 >= PIECE_BLOCKS ||
    (0 <= pX + x2 < BOARD_WIDTH && 0 <= pY + y2 && pY + PIECE_BLOCKS <= BOARD_HEIGHT)
  }

  /** Matrix columns x2..4, placed at (pX, pY), lie inside the board. */
  predicate ColumnsInside(pX: int, pY: int, x2: int) {
    x2 >= PIECE_BLOCKS ||
    (0 <= pX + x2 && pX + PIECE_BLOCKS <= BOARD_WIDTH && 0 <= pY && pY + PIECE_BLOCKS <= BOARD_HEIGHT)
  }

  /** The whole 5x5 matrix placed at (pX, pY) lies inside the board. */
  predicate WindowInside(pX: int, pY: int) {
    ColumnsInside(pX, pY, 0)
  }

  /** The body of the inner loop for local cell (row y2, column x2). */
  function CellCheck(v: Variant, b: BoardState, pX: int, pY: int, p: int, r: int, x2: int, y2: int): (s: Step)
    requires Valid(b) && IsPiece(b.pieces, p, r) && IsLocal(y2, x2)
    ensures s == Continue ==> CellOk(b, pX, pY, p, r, y2, x2)
    ensures (v == Corrected || InBoard(pX + x2, pY + y2)) ==>
      s != Undefined && (s == Continue <==> CellOk(b, pX, pY, p, r, y2, x2))
  {
    var x1 := pX + x2;
    var y1 := pY + y2;
    // the column the out-of-bounds branch reads
    var col := if v == AsWritten then y1 else x2;
    if !InBoard(x1, y1) && !(0 <= col < PIECE_BLOCKS) then Undefined
    else if !InBoard(x1, y1) && GetBlockType(b.pieces, p, r, y2, col) != 0 then Reject
    else if y1 >= 0 && GetBlockType(b.pieces, p, r, y2, x2) != 0 then
      if !InBoard(x1, y1) then Undefined
      else if !IsFreeBlock(b, x1, y1) then Reject
      else Continue
    else Continue
  }

  /** The inner loop: column x2, rows y2 to 4. */
  function ScanColumn(v: Variant, b: BoardState, pX: int, pY: int, p: int, r: int, x2: int, y2: int): (s: Step)
    requires Valid(b) && IsPiece(b.pieces, p, r) && 0 <= x2 < PIECE_BLOCKS && 0 <= y2 <= PIECE_BLOCKS
    ensures s == Continue ==> forall i :: y2 <= i < PIECE_BLOCKS ==> CellOk(b, pX, pY, p, r, i, x2)
    ensures (v == Corrected || ColumnInside(pX, pY, x2, y2)) ==>
      s != Undefined &&
      (s == Continue <==> forall i :: y2 <= i < PIECE_BLOCKS ==> CellOk(b, pX, pY, p, r, i, x2))
    decreases PIECE_BLOCKS - y2
  {
    if y2 == PIECE_BLOCKS then Continue
    else
      var s := CellCheck(v, b, pX, pY, p, r, x2, y2);
      if s == Continue then ScanColumn(v, b, pX, pY, p, r, x2, y2 + 1) else s
  }

  /** The outer loop: columns x2 to 4. */
  function ScanColumns(v: Variant, b: BoardState, pX: int, pY: int, p: int, r: int, x2: int): (o: Outcome)
    requires Valid(b) && IsPiece(b.pieces, p, r) && 0 <= x2 <= PIECE_BLOCKS
    ensures o == Answer(true) ==>
      forall i, j :: IsLocal(i, j) && x2 <= j ==> CellOk(b, pX, pY, p, r, i, j)
    ensures (v == Corrected || ColumnsInside(pX, pY, x2)) ==>
      o != UndefinedBehaviour &&
      (o.possible <==> forall i, j :: IsLocal(i, j) && x2 <= j ==> CellOk(b, pX, pY, p, r, i, j))
    decreases PIECE_BLOCKS - x2
  {
    if x2 == PIECE_BLOCKS then Answer(true)
    else
      match ScanColumn(v, b, pX, pY, p, r, x2, 0)
      case Continue => ScanColumns(v, b, pX, pY, p, r, x2 + 1)
      case Reject => Answer(false)
      case Undefined => UndefinedBehaviour
  }

  /** IsPossibleMovement as the source writes it. A true answer is always
      right: every occupied cell is inside the board and FREE. When the
      whole 5x5 window lies inside the board no read leaves its array and the
      answer is exact. Coordinates are unbounded here; the C++ loop bounds
      pX + 5 and pY + 5 would overflow a 32-bit int above 2147483642, which
      this model does not treat as undefined behaviour. */
  function IsPossibleMovementAsWritten(b: BoardState, pX: int, pY: int, p: int, r: int): (o: Outcome)
    requires Valid(b) && IsPiece(b.pieces, p, r)
    ensures o == Answer(true) ==> Placeable(b, pX, pY, p, r)
    ensures WindowInside(pX, pY) ==> o == Answer(Placeable(b, pX, pY, p, r))
  {
    ScanColumns(AsWritten, b, pX, pY, p, r, 0)
  }

  /** IsPossibleMovement with the out-of-bounds branch reading column x2.
      It never reads outside an array and answers true exactly when every
      occupied cell of the piece lands on a FREE cell inside the board. */
  function IsPossibleMovement(b: BoardState, pX: int, pY: int, p: int, r: int): (possible: bool)
    requires Valid(b) && IsPiece(b.pieces, p, r)
    ensures possible <==> Placeable(b, pX, pY, p, r)
  {
    ScanColumns(Corrected, b, pX, pY, p, r, 0).possible
  }

  /** Inside the board the two versions agree. */
  lemma VersionsAgreeInside(b: BoardState, pX: int, pY: int, p: int, r: int)
    requires Valid(b) && IsPiece(b.pieces, p, r) && WindowInside(pX, pY)
    ensures IsPossibleMovementAsWritten(b, pX, pY, p, r) == Answer(IsPossibleMovement(b, pX, pY, p, r))
  {
  }

  /** Going from grid g to grid h only turns FREE cells of the playing layer
      into FILLED ones. */
  ghost predicate FillsOnlyFree(g: Grid, h: Grid)
    requires WellFormed(g) && WellFormed(h)
  {
    forall x, y, z :: InGrid(x, y, z) && h[x][y][z] != g[x][y][z] ==>
      z == 0 && g[x][y][z] == POS_FREE && h[x][y][z] == POS_FILLED
  }

  /** A placement the test accepts can be stored: every occupied cell is
      inside the board, and storing only turns FREE cells into FILLED ones. */
  lemma PossibleThenStore(b: BoardState, pX: int, pY: int, p: int, r: int)
    requires Valid(b) && IsPiece(b.pieces, p, r) && IsPossibleMovement(b, pX, pY, p, r)
    ensures Fits(b.pieces, pX, pY, p, r)
    ensures FillsOnlyFree(b.cells, StorePiece(b, pX, pY, p, r).cells)
  {
    PlaceableFits(b, pX, pY, p, r);
    StorePlaceable(b, pX, pY, p, r);
  }

  /** A placeable piece fits the board. */
  lemma PlaceableFits(b: BoardState, pX: int, pY: int, p: int, r: int)
    requires Valid(b) && IsPiece(b.pieces, p, r) && Placeable(b, pX, pY, p, r)
    ensures Fits(b.pieces, pX, pY, p, r)
  {
    forall i, j | IsLocal(i, j) && Occupied(b.pieces, p, r, i, j)
      ensures InBoard(pX + j, pY + i)
    {
      assert CellOk(b, pX, pY, p, r, i, j);
    }
  }

  /** Storing a placeable piece only fills FREE cells. */
  lemma StorePlaceable(b: BoardState, pX: int, pY: int, p: int, r: int)
    requires Valid(b) && IsPiece(b.pieces, p, r) && Placeable(b, pX, pY, p, r) && Fits(b.pieces, pX, pY, p, r)
    ensures FillsOnlyFree(b.cells, StorePiece(b, pX, pY, p, r).cells)
  {
    var h := StorePiece(b, pX, pY, p, r).cells;
    forall x, y, z | InGrid(x, y, z) && h[x][y][z] != b.cells[x][y][z]
      ensures z == 0 && b.cells[x][y][z] == POS_FREE && h[x][y][z] == POS_FILLED
    {
      assert CellOk(b, pX, pY, p, r, y - pY, x - pX);
    }
  }

  /** The same for the code as written: an answer of true is safe to act on. */
  lemma PossibleAsWrittenThenStore(b: BoardState, pX: int, pY: int, p: int, r: int)
    requires Valid(b) && IsPiece(b.pieces, p, r)
    requires IsPossibleMovementAsWritten(b, pX, pY, p, r) == Answer(true)
    ensures Fits(b.pieces, pX, pY, p, r)
    ensures FillsOnlyFree(b.cells, StorePiece(b, pX, pY, p, r).cells)
  {
    PossibleThenStore(b, pX, pY, p, r);
  }
}

/** The Board class (Board.h, Board.cpp) as the source writes it: a mutable
    7 x 14 x 7 array and the piece table, with one method per member function
    whose loops walk the array as the C++ loops do. Each method's contract
    ties it to the pure model in module Board: the board the method leaves
    behind, read as a value, is the one the pure function computes.

    The inner loops of StorePiece and IsPossibleMovement, and the body of
    DeletePossibleLines's for loop, are methods of their own here, so that
    the proof of each loop stays small.
 */
module BoardObjects {
  import opened Grids
  import opened Pieces
  import opened Board
  import opened Movement
  import LineClearing

  class BoardObject {
    const pieces: PieceTable
    const cells: array3<int>

    /** The array has the board's dimensions. */
    ghost predicate Shaped()
      reads this
    {
      cells.Length0 == BOARD_WIDTH && cells.Length1 == BOARD_HEIGHT && cells.Length2 == BOARD_DEPTH
    }

    /** The array has the board's dimensions and the piece table is well
        formed. Both fields are constant, so every method keeps this. */
    ghost predicate Valid()
      reads this
    {
      Shaped() && ValidTable(pieces)
    }

    /** The array read as a grid value. */
    ghost function Contents(): (g: Grid)
      reads this, cells
      requires Shaped()
      ensures WellFormed(g)
      ensures forall x, y, z :: InGrid(x, y, z) ==> g[x][y][z] == cells[x, y, z]
    {
      seq(BOARD_WIDTH, x reads cells requires 0 <= x < BOARD_WIDTH =>
        seq(BOARD_HEIGHT, y reads cells requires 0 <= y < BOARD_HEIGHT =>
          seq(BOARD_DEPTH, z reads cells requires 0 <= z < BOARD_DEPTH => cells[x, y, z])))
    }

    /** The object read as a board value of the pure model. */
    ghost function State(): (b: BoardState)
      reads this, cells
      requires Valid()
      ensures Board.Valid(b) && b.cells == Contents() && b.pieces == pieces
    {
      BoardState(Contents(), pieces)
    }

    /** The array holds grid g: they agree cell by cell. */
    ghost predicate Holds(g: Grid)
      reads this, cells
    {
      && Shaped() && WellFormed(g)
      && forall x, y, z :: InGrid(x, y, z) ==> cells[x, y, z] == g[x][y][z]
    }

    /** An array that holds grid g reads as g. */
    lemma ContentsAre(g: Grid)
      requires Holds(g)
      ensures Contents() == g
    {
      GridExt(Contents(), g);
    }

    /** The constructor keeps the piece table and does not clear the array:
        a fresh array here holds arbitrary values, as the C++ member array
        does before InitBoard runs. */
    constructor (t: PieceTable)
      requires ValidTable(t)
      ensures Valid() && pieces == t && fresh(cells)
    {
      pieces := t;
      cells := new int[BOARD_WIDTH, BOARD_HEIGHT, BOARD_DEPTH];
    }

    /** Whether cell (pX, pY) of the playing layer is FREE. */
    method IsFreeBlock(pX: int, pY: int) returns (free: bool)
      requires Valid() && InBoard(pX, pY)
      ensures free == Board.IsFreeBlock(State(), pX, pY)
    {
      if cells[pX, pY, 0] == POS_FREE {
        return true;
      }
      return false;
    }

    /** The loop walks column x = 0 from the top row down and stops at the
        first FILLED cell. */
    method IsGameOver() returns (over: bool)
      requires Valid()
      ensures over <==> exists y :: 0 <= y < BOARD_HEIGHT && cells[0, y, 0] == POS_FILLED
      ensures over == Board.IsGameOver(State())
    {
      for y := 0 to BOARD_HEIGHT
        invariant forall y' :: 0 <= y' < y ==> cells[0, y', 0] != POS_FILLED
      {
        if cells[0, y, 0] == POS_FILLED {
          assert InGrid(0, y, 0);
          return true;
        }
      }
      forall y' | 0 <= y' < BOARD_HEIGHT
        ensures Contents()[0][y'][0] != POS_FILLED
      {
        assert InGrid(0, y', 0);
      }
      return false;
    }

    /** Sets every cell of every layer to POS_FREE. */
    method InitBoard()
      requires Valid()
      modifies cells
      ensures Valid() && State() == Board.InitBoard(old(State()))
    {
      for x := 0 to BOARD_WIDTH
        invariant forall i, j, k :: 0 <= i < x && 0 <= j < BOARD_HEIGHT && 0 <= k < BOARD_DEPTH ==>
          cells[i, j, k] == POS_FREE
      {
        for y := 0 to BOARD_HEIGHT
          invariant forall i, j, k :: 0 <= i < x && 0 <= j < BOARD_HEIGHT && 0 <= k < BOARD_DEPTH ==>
            cells[i, j, k] == POS_FREE
          invariant forall j, k :: 0 <= j < y && 0 <= k < BOARD_DEPTH ==> cells[x, j, k] == POS_FREE
        {
          for z := 0 to BOARD_DEPTH
            invariant forall i, j, k :: 0 <= i < x && 0 <= j < BOARD_HEIGHT && 0 <= k < BOARD_DEPTH ==>
              cells[i, j, k] == POS_FREE
            invariant forall j, k :: 0 <= j < y && 0 <= k < BOARD_DEPTH ==> cells[x, j, k] == POS_FREE
            invariant forall k :: 0 <= k < z ==> cells[x, y, k] == POS_FREE
          {
            cells[x, y, z] := POS_FREE;
          }
        }
      }
      ContentsAre(EmptyGrid());
    }

    /** The inner loop of StorePiece: matrix column x2, landing on board
        column x1. */
    method StoreColumnAt(pX: int, pY: int, p: int, r: int, x1: int, x2: int)
      requires Valid() && IsPiece(pieces, p, r) && Fits(pieces, pX, pY, p, r)
      requires 0 <= x2 < PIECE_BLOCKS && x1 == pX + x2
      modifies cells
      ensures forall x, y, z :: InGrid(x, y, z) ==>
        cells[x, y, z] ==
          if z == 0 && x == x1 && Covers(pieces, pX, pY, p, r, x, y) then POS_FILLED else old(cells[x, y, z])
    {
      var y1, y2 := pY, 0;
      while y1 < pY + PIECE_BLOCKS
        invariant y1 == pY + y2 && 0 <= y2 <= PIECE_BLOCKS
        invariant forall x, y, z :: InGrid(x, y, z) ==>
          cells[x, y, z] ==
            if z == 0 && x == x1 && y < y1 && Covers(pieces, pX, pY, p, r, x, y)
            then POS_FILLED else old(cells[x, y, z])
      {
        if GetBlockType(pieces, p, r, y2, x2) != 0 {
          assert Occupied(pieces, p, r, y2, x2);
          cells[x1, y1, 0] := POS_FILLED;
        }
        y1, y2 := y1 + 1, y2 + 1;
      }
    }

    /** Stamps the occupied cells of piece (p, r), its matrix placed with the
        top-left corner at (pX, pY), onto the playing layer. */
    method StorePiece(pX: int, pY: int, p: int, r: int)
      requires Valid() && IsPiece(pieces, p, r) && Fits(pieces, pX, pY, p, r)
      modifies cells
      ensures Valid() && State() == Board.StorePiece(old(State()), pX, pY, p, r)
    {
      ghost var before := Contents();
      var x1, x2 := pX, 0;
      while x1 < pX + PIECE_BLOCKS
        invariant x1 == pX + x2 && 0 <= x2 <= PIECE_BLOCKS
        invariant forall x, y, z :: InGrid(x, y, z) ==>
          cells[x, y, z] ==
            if z == 0 && x < x1 && Covers(pieces, pX, pY, p, r, x, y) then POS_FILLED else before[x][y][z]
      {
        StoreColumnAt(pX, pY, p, r, x1, x2);
        x1, x2 := x1 + 1, x2 + 1;
      }
      StoredContents(before, pX, pY, p, r);
    }

    /** After the loops of StorePiece the array holds the stored board. */
    lemma StoredContents(before: Grid, pX: int, pY: int, p: int, r: int)
      requires Valid() && WellFormed(before) && IsPiece(pieces, p, r) && Fits(pieces, pX, pY, p, r)
      requires forall x, y, z :: InGrid(x, y, z) ==>
        cells[x, y, z] ==
          if z == 0 && Covers(pieces, pX, pY, p, r, x, y) then POS_FILLED else before[x][y][z]
      ensures State() == Board.StorePiece(BoardState(before, pieces), pX, pY, p, r)
    {
      ContentsAre(Board.StorePiece(BoardState(before, pieces), pX, pY, p, r).cells);
    }

    /** Moves every row above row pY one row down, from row pY up to row 1. */
    method DeleteLine(pY: int)
      requires Valid() && pY < BOARD_HEIGHT
      modifies cells
      ensures Valid() && State() == Board.DeleteLine(old(State()), pY)
    {
      ghost var before := Contents();
      var y := pY;
      while y > 0
        invariant y <= pY && (0 <= y || y == pY)
        invariant forall i, j, k :: InGrid(i, j, k) ==>
          cells[i, j, k] == if k == 0 && y < j <= pY then before[i][j - 1][0] else before[i][j][k]
      {
        for x := 0 to BOARD_WIDTH
          invariant forall i, j, k :: InGrid(i, j, k) ==>
            cells[i, j, k] ==
              if k == 0 && (y < j <= pY || (j == y && i < x)) then before[i][j - 1][0] else before[i][j][k]
        {
          cells[x, y, 0] := cells[x, y - 1, 0];
        }
        y := y - 1;
      }
      ShiftedContents(before, pY);
    }

    /** After the loops of DeleteLine the array holds the shifted board. */
    lemma ShiftedContents(before: Grid, pY: int)
      requires Valid() && WellFormed(before) && pY < BOARD_HEIGHT
      requires forall i, j, k :: InGrid(i, j, k) ==>
        cells[i, j, k] == if k == 0 && 0 < j <= pY then before[i][j - 1][0] else before[i][j][k]
      ensures State() == Board.DeleteLine(BoardState(before, pieces), pY)
    {
      ContentsAre(ShiftDown(before, pY));
    }

    /** The while loop of DeletePossibleLines: row y is complete. */
    method RowIsComplete(y: int, ghost g: Grid) returns (complete: bool)
      requires 0 <= y < BOARD_HEIGHT && Holds(g)
      ensures complete == RowComplete(g, y)
    {
      var x := 0;
      while x < BOARD_WIDTH
        invariant 0 <= x <= BOARD_WIDTH
        invariant FirstNotFilled(g, y, x) == FirstNotFilled(g, y, 0)
      {
        if cells[x, y, 0] != POS_FILLED {
          assert InGrid(x, y, 0);
          break;
        }
        assert InGrid(x, y, 0);
        x := x + 1;
      }
      complete := x == BOARD_WIDTH;
    }

    /** Scans the rows from the top down and deletes each complete row as the
        scan reaches it. */
    method DeletePossibleLines()
      requires Valid()
      modifies cells
      ensures Valid() && State() == Board.DeletePossibleLines(old(State()))
    {
      ghost var cur := Contents();
      ghost var target := ClearFrom(cur, 0);
      for y := 0 to BOARD_HEIGHT
        invariant Holds(cur) && ClearFrom(cur, y) == target
      {
        ghost var next := if RowComplete(cur, y) then ShiftDown(cur, y) else cur;
        assert ClearFrom(cur, y) == ClearFrom(next, y + 1) by {
          LineClearing.ClearFromStep(cur, y);
        }
        ClearRow(y, cur);
        cur := next;
      }
      StateIs(target);
    }

    /** The body of the for loop of DeletePossibleLines: row y is deleted
        when it is complete. */
    method ClearRow(y: int, ghost g: Grid)
      requires Valid() && 0 <= y < BOARD_HEIGHT && Holds(g)
      modifies cells
      ensures Holds(if RowComplete(g, y) then ShiftDown(g, y) else g)
    {
      var complete := RowIsComplete(y, g);
      if complete {
        StateIs(g);
        DeleteLine(y);
        DeletedHolds(g, y);
      }
    }

    /** The state of a board whose array holds grid g. */
    lemma StateIs(g: Grid)
      requires Valid() && Holds(g)
      ensures State() == BoardState(g, pieces)
    {
      ContentsAre(g);
    }

    /** After DeleteLine(y) on a board holding g, the array holds the shifted
        grid. */
    lemma DeletedHolds(g: Grid, y: int)
      requires Valid() && WellFormed(g) && y < BOARD_HEIGHT
      requires State() == Board.DeleteLine(BoardState(g, pieces), y)
      ensures Holds(ShiftDown(g, y))
    {
    }

    /** The inner loop of IsPossibleMovement: matrix column x2, landing on
        board column x1. Reject stands for the early return of false. */
    method ScanColumnAt(pX: int, pY: int, p: int, r: int, x1: int, x2: int) returns (s: Step)
      requires Valid() && IsPiece(pieces, p, r) && 0 <= x2 < PIECE_BLOCKS && x1 == pX + x2
      requires ScanColumn(AsWritten, State(), pX, pY, p, r, x2, 0) != Undefined
      ensures s == ScanColumn(AsWritten, State(), pX, pY, p, r, x2, 0)
    {
      ghost var b := State();
      var y1, y2 := pY, 0;
      while y1 < pY + PIECE_BLOCKS
        invariant y1 == pY + y2 && 0 <= y2 <= PIECE_BLOCKS
        invariant ScanColumn(AsWritten, b, pX, pY, p, r, x2, y2) == ScanColumn(AsWritten, b, pX, pY, p, r, x2, 0)
      {
        if x1 < 0 || x1 > BOARD_WIDTH - 1 || y1 < 0 || y1 > BOARD_HEIGHT - 1 {
          if GetBlockType(pieces, p, r, y2, y1) != 0 {
            return Reject;
          }
        }
        if y1 >= 0 {
          if GetBlockType(pieces, p, r, y2, x2) != 0 {
            var free := IsFreeBlock(x1, y1);
            if !free {
              return Reject;
            }
          }
        }
        y1, y2 := y1 + 1, y2 + 1;
      }
      return Continue;
    }

    /** The placement test as written. A run that would read outside an
        array has no defined result in C++, so the caller must rule it out. */
    method IsPossibleMovement(pX: int, pY: int, p: int, r: int) returns (possible: bool)
      requires Valid() && IsPiece(pieces, p, r)
      requires IsPossibleMovementAsWritten(State(), pX, pY, p, r) != UndefinedBehaviour
      ensures Answer(possible) == IsPossibleMovementAsWritten(State(), pX, pY, p, r)
    {
      ghost var b := State();
      var x1, x2 := pX, 0;
      while x1 < pX + PIECE_BLOCKS
        invariant x1 == pX + x2 && 0 <= x2 <= PIECE_BLOCKS
        invariant ScanColumns(AsWritten, b, pX, pY, p, r, x2) == ScanColumns(AsWritten, b, pX, pY, p, r, 0)
      {
        var s := ScanColumnAt(pX, pY, p, r, x1, x2);
        if s == Reject {
          return false;
        }
        x1, x2 := x1 + 1, x2 + 1;
      }
      return true;
    }
  }
}

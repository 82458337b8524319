/** What DeleteLine and DeletePossibleLines do to the rows of the playing
    layer, stated against the row-level reference definitions of module Rows.
 */
module LineClearing {
  import opened Grids
  import opened Rows
  import opened Board

  /** Two rows of the playing layer that agree cell by cell are equal. */
  lemma RowsAgree(g: Grid, y: int, h: Grid, y': int)
    requires WellFormed(g) && WellFormed(h) && 0 <= y < BOARD_HEIGHT && 0 <= y' < BOARD_HEIGHT
    requires forall x :: 0 <= x < BOARD_WIDTH ==> g[x][y][0] == h[x][y'][0]
    ensures Row(g, y) == Row(h, y')
  {
    var a := Row(g, y);
    var c := Row(h, y');
    assert forall x :: 0 <= x < BOARD_WIDTH ==> a[x] == c[x];
  }

  /** Row y of the grid after the row shift of DeleteLine(pY), pY >= 1, as
      a row of the grid before. */
  lemma ShiftDownRow(g: Grid, pY: int, y: int)
    requires WellFormed(g) && 1 <= pY < BOARD_HEIGHT && 0 <= y < BOARD_HEIGHT
    ensures Row(ShiftDown(g, pY), y) == if 1 <= y <= pY then Row(g, y - 1) else Row(g, y)
  {
    var h := ShiftDown(g, pY);
    var y' := if 1 <= y <= pY then y - 1 else y;
    forall x | 0 <= x < BOARD_WIDTH
      ensures h[x][y][0] == g[x][y'][0]
    {
      assert InGrid(x, y, 0);
    }
    RowsAgree(h, y, g, y');
  }

  /** A list that takes a second copy of its head and loses its element at
      position k, written element by element. */
  lemma DropAndDuplicateHead<T>(before: seq<T>, after: seq<T>, k: int)
    requires 1 <= k < |before| == |after|
    requires after[0] == before[0]
    requires forall y :: 1 <= y <= k ==> after[y] == before[y - 1]
    requires forall y :: k < y < |after| ==> after[y] == before[y]
    ensures after == [before[0]] + before[..k] + before[k + 1..]
  {
    var expected := [before[0]] + before[..k] + before[k + 1..];
    forall y | 0 <= y < |after|
      ensures after[y] == expected[y]
    {
      if y == 0 {
      } else if y <= k {
        assert expected[y] == before[..k][y - 1];
      } else {
        assert expected[y] == before[k + 1..][y - k - 1];
      }
    }
  }

  /** Rows 1..pY take the old rows 0..pY-1 under the row shift. */
  lemma ShiftDownMovesRows(g: Grid, pY: int)
    requires WellFormed(g) && 1 <= pY < BOARD_HEIGHT
    ensures forall y :: 1 <= y <= pY ==> RowsOf(ShiftDown(g, pY))[y] == RowsOf(g)[y - 1]
  {
    forall y | 1 <= y <= pY
      ensures RowsOf(ShiftDown(g, pY))[y] == RowsOf(g)[y - 1]
    {
      ShiftDownRow(g, pY, y);
    }
  }

  /** Row 0 and the rows below pY stay where they are under the row shift. */
  lemma ShiftDownKeepsRows(g: Grid, pY: int)
    requires WellFormed(g) && 1 <= pY < BOARD_HEIGHT
    ensures RowsOf(ShiftDown(g, pY))[0] == RowsOf(g)[0]
    ensures forall y :: pY < y < BOARD_HEIGHT ==> RowsOf(ShiftDown(g, pY))[y] == RowsOf(g)[y]
  {
    ShiftDownRow(g, pY, 0);
    forall y | pY < y < BOARD_HEIGHT
      ensures RowsOf(ShiftDown(g, pY))[y] == RowsOf(g)[y]
    {
      ShiftDownRow(g, pY, y);
    }
  }

  /** The row shift of DeleteLine(pY), pY >= 1, removes row pY from the row
      list and puts a second copy of the top row in front: rows 1..pY take
      the old rows 0..pY-1 and nothing else moves. */
  lemma ShiftDownRows(g: Grid, pY: int)
    requires WellFormed(g) && 1 <= pY < BOARD_HEIGHT
    ensures RowsOf(ShiftDown(g, pY)) == [RowsOf(g)[0]] + RowsOf(g)[..pY] + RowsOf(g)[pY + 1..]
  {
    var before := RowsOf(g);
    var after := RowsOf(ShiftDown(g, pY));
    assert after[0] == before[0] by {
      ShiftDownKeepsRows(g, pY);
    }
    assert forall y :: 1 <= y <= pY ==> after[y] == before[y - 1] by {
      ShiftDownMovesRows(g, pY);
    }
    assert forall y :: pY < y < BOARD_HEIGHT ==> after[y] == before[y] by {
      ShiftDownKeepsRows(g, pY);
    }
    DropAndDuplicateHead(before, after, pY);
  }

  /** DeleteLine(pY) with pY >= 1, on the rows of the board. */
  lemma DeleteLineRows(b: BoardState, pY: int)
    requires Valid(b) && 1 <= pY < BOARD_HEIGHT
    ensures RowsOf(DeleteLine(b, pY).cells) ==
            [RowsOf(b.cells)[0]] + RowsOf(b.cells)[..pY] + RowsOf(b.cells)[pY + 1..]
  {
    ShiftDownRows(b.cells, pY);
  }

  /** Prepending one more copy of a row to a block of copies. */
  lemma RepeatCons(row: seq<int>, n: nat)
    ensures [row] + Repeat(row, n) == Repeat(row, n + 1)
  {
  }

  lemma AppendAssoc<T>(a: seq<T>, b: seq<T>, c: seq<T>)
    ensures a + (b + c) == (a + b) + c
  {
  }

  /** The surviving rows of a prefix grow by one row at a time. */
  lemma NotFullSnoc(rows: seq<seq<int>>, y: int)
    requires 1 <= y < |rows|
    ensures NotFull(rows[1..y + 1]) ==
            NotFull(rows[1..y]) + (if Full(rows[y]) then [] else [rows[y]])
  {
    assert rows[1..y + 1][..y - 1] == rows[1..y];
  }

  /** One step of the scan at row y < BOARD_HEIGHT. */
  lemma ClearFromStep(g: Grid, y: int)
    requires WellFormed(g) && 0 <= y < BOARD_HEIGHT
    ensures RowComplete(g, y) ==> ClearFrom(g, y) == ClearFrom(ShiftDown(g, y), y + 1)
    ensures !RowComplete(g, y) ==> ClearFrom(g, y) == ClearFrom(g, y + 1)
  {
  }

  /** The loop invariant of DeletePossibleLines. When the scan reaches row
      y >= 1, the rows it has passed hold copies of the old top row followed
      by the surviving rows of 1..y-1 in order, and rows y and below are
      the original ones. */
  ghost predicate ScanInvariant(rows: seq<seq<int>>, y: int, orig: seq<seq<int>>)
    requires 1 <= y <= |rows| == |orig|
  {
    && rows[..y] == Repeat(orig[0], y - |NotFull(orig[1..y])|) + NotFull(orig[1..y])
    && rows[y..] == orig[y..]
  }

  /** Before the scan passes row 1, the invariant holds. */
  lemma ScanStart(rows: seq<seq<int>>)
    requires |rows| >= 1
    ensures ScanInvariant(rows, 1, rows)
  {
    assert rows[1..1] == [];
  }

  /** Facts the invariant gives about the row the scan is at. */
  lemma ScanInvariantAt(rows: seq<seq<int>>, y: int, orig: seq<seq<int>>)
    requires 1 <= y < |rows| == |orig| && ScanInvariant(rows, y, orig)
    ensures rows[y] == orig[y] && rows[0] == orig[0]
    ensures rows[y + 1..] == orig[y + 1..]
  {
    assert rows[y..][0] == orig[y..][0];
    assert rows[..y][0] == rows[0];
    assert rows[y + 1..] == rows[y..][1..];
    assert orig[y + 1..] == orig[y..][1..];
  }

  /** Deleting the full row y keeps the invariant for row y + 1. */
  lemma ScanInvariantDelete(rows: seq<seq<int>>, rows1: seq<seq<int>>, y: int, orig: seq<seq<int>>)
    requires 1 <= y < |rows| == |orig| && ScanInvariant(rows, y, orig)
    requires Full(orig[y])
    requires rows1 == [rows[0]] + rows[..y] + rows[y + 1..]
    ensures ScanInvariant(rows1, y + 1, orig)
  {
    var kept := NotFull(orig[1..y]);
    var n := y - |kept|;
    ScanInvariantAt(rows, y, orig);
    NotFullSnoc(orig, y);
    assert NotFull(orig[1..y + 1]) == kept;
    calc {
      rows1[..y + 1];
      [rows[0]] + rows[..y];
      [orig[0]] + (Repeat(orig[0], n) + kept);
      { AppendAssoc([orig[0]], Repeat(orig[0], n), kept); }
      ([orig[0]] + Repeat(orig[0], n)) + kept;
      { RepeatCons(orig[0], n); }
      Repeat(orig[0], n + 1) + kept;
    }
    assert rows1[y + 1..] == rows[y + 1..];
  }

  /** Passing over a row that is not full keeps the invariant for row y + 1. */
  lemma ScanInvariantKeep(rows: seq<seq<int>>, y: int, orig: seq<seq<int>>)
    requires 1 <= y < |rows| == |orig| && ScanInvariant(rows, y, orig)
    requires !Full(orig[y])
    ensures ScanInvariant(rows, y + 1, orig)
  {
    var kept := NotFull(orig[1..y]);
    var n := y - |kept|;
    ScanInvariantAt(rows, y, orig);
    NotFullSnoc(orig, y);
    assert NotFull(orig[1..y + 1]) == kept + [orig[y]];
    calc {
      rows[..y + 1];
      rows[..y] + [rows[y]];
      (Repeat(orig[0], n) + kept) + [orig[y]];
      { AppendAssoc(Repeat(orig[0], n), kept, [orig[y]]); }
      Repeat(orig[0], n) + (kept + [orig[y]]);
    }
  }

  /** From any point where the invariant holds, the scan ends at the cleared
      row list. */
  lemma {:induction false} ClearFromRows(g: Grid, y: int, orig: seq<seq<int>>)
    requires WellFormed(g) && 1 <= y <= BOARD_HEIGHT && |orig| == BOARD_HEIGHT
    requires ScanInvariant(RowsOf(g), y, orig)
    ensures RowsOf(ClearFrom(g, y)) == Cleared(orig)
    decreases BOARD_HEIGHT - y
  {
    var rows := RowsOf(g);
    if y == BOARD_HEIGHT {
      assert orig[1..y] == orig[1..];
      assert rows == rows[..y];
    } else {
      ScanInvariantAt(rows, y, orig);
      ClearFromStep(g, y);
      if RowComplete(g, y) {
        ShiftDownRows(g, y);
        ScanInvariantDelete(rows, RowsOf(ShiftDown(g, y)), y, orig);
        ClearFromRows(ShiftDown(g, y), y + 1, orig);
      } else {
        ScanInvariantKeep(rows, y, orig);
        ClearFromRows(g, y + 1, orig);
      }
    }
  }

  /** Row 0 is never deleted: the row shift of DeleteLine(0) moves nothing. */
  lemma ScanSkipsTopRow(g: Grid)
    requires WellFormed(g)
    ensures ClearFrom(g, 0) == ClearFrom(g, 1)
  {
  }

  /** DeletePossibleLines removes every full row other than the top one, lets
      the other rows sink in order, and fills the vacated rows at the top
      with copies of the old top row. */
  lemma DeletePossibleLinesRows(b: BoardState)
    requires Valid(b)
    ensures RowsOf(DeletePossibleLines(b).cells) == Cleared(RowsOf(b.cells))
  {
    var rows := RowsOf(b.cells);
    ScanStart(rows);
    ClearFromRows(b.cells, 1, rows);
    ScanSkipsTopRow(b.cells);
  }

  /** DeletePossibleLines never increases the number of FILLED cells of the
      playing layer, and lowers it exactly when it deletes a full row while
      the top row, whose copies refill the board from above, is not full. */
  lemma DeletePossibleLinesNeverAddsBlocks(b: BoardState)
    requires Valid(b)
    ensures FilledCells(DeletePossibleLines(b).cells) <= FilledCells(b.cells)
    ensures FilledCells(DeletePossibleLines(b).cells) < FilledCells(b.cells) <==>
      !Full(Row(b.cells, 0)) && exists y :: 1 <= y < BOARD_HEIGHT && Full(Row(b.cells, y))
  {
    var rows := RowsOf(b.cells);
    DeletePossibleLinesRows(b);
    ClearedFilled(rows);
    if exists i :: 1 <= i < |rows| && Full(rows[i]) {
      var i :| 1 <= i < |rows| && Full(rows[i]);
      assert Full(Row(b.cells, i));
    }
  }

  /** When the top row is not full, no full row is left afterwards. When it
      is full, it is copied down once per deleted row, and those copies are
      exactly the full rows left. */
  lemma DeletePossibleLinesFullRowsLeft(b: BoardState)
    requires Valid(b)
    ensures !Full(Row(b.cells, 0)) ==>
      forall y :: 0 <= y < BOARD_HEIGHT ==> !Full(Row(DeletePossibleLines(b).cells, y))
    ensures Full(Row(b.cells, 0)) ==>
      forall y :: 0 <= y < BOARD_HEIGHT ==>
        (Full(Row(DeletePossibleLines(b).cells, y)) <==> y <= FullBelowTop(RowsOf(b.cells)))
  {
    var rows := RowsOf(b.cells);
    var after := RowsOf(DeletePossibleLines(b).cells);
    DeletePossibleLinesRows(b);
    ClearedFullRows(rows);
    assert forall y :: 0 <= y < BOARD_HEIGHT ==> after[y] == Cleared(rows)[y];
  }

  /** The scan passes rows start..stop-1 without deleting anything when none
      of them, apart from the top row, is full. */
  lemma {:induction false} ClearFromUntouched(g: Grid, start: int, stop: int)
    requires WellFormed(g) && 0 <= start <= stop <= BOARD_HEIGHT
    requires forall y :: start <= y < stop && 1 <= y ==> !Full(Row(g, y))
    ensures ClearFrom(g, start) == ClearFrom(g, stop)
    decreases stop - start
  {
    if start < stop {
      ClearFromStep(g, start);
      ClearFromUntouched(g, start + 1, stop);
    }
  }

  /** With no full row below the top one, DeletePossibleLines leaves the
      board as it was. */
  lemma DeletePossibleLinesNoFullRow(b: BoardState)
    requires Valid(b)
    requires forall y :: 1 <= y < BOARD_HEIGHT ==> !Full(Row(b.cells, y))
    ensures DeletePossibleLines(b) == b
  {
    ClearFromUntouched(b.cells, 0, BOARD_HEIGHT);
  }

  /** When row y (y >= 1) is the only full row below the top one,
      DeletePossibleLines is exactly DeleteLine(y): rows 1..y take the old
      rows 0..y-1 and the rows below y stay. */
  lemma SingleFullRow(b: BoardState, y: int)
    requires Valid(b) && 1 <= y < BOARD_HEIGHT
    requires Full(Row(b.cells, y))
    requires forall y' :: 1 <= y' < BOARD_HEIGHT && y' != y ==> !Full(Row(b.cells, y'))
    ensures DeletePossibleLines(b) == DeleteLine(b, y)
  {
    var g := b.cells;
    var g1 := ShiftDown(g, y);
    forall y' | y < y' < BOARD_HEIGHT
      ensures !Full(Row(g1, y'))
    {
      ShiftDownRow(g, y, y');
    }
    ClearFromUntouched(g, 0, y);
    ClearFromStep(g, y);
    ClearFromUntouched(g1, y + 1, BOARD_HEIGHT);
  }

  /** The scan from row y on leaves the upper layers alone and keeps a
      two-valued playing layer two-valued. */
  lemma {:induction false} ClearFromFrame(g: Grid, y: int)
    requires WellFormed(g) && 0 <= y <= BOARD_HEIGHT
    ensures SameUpperLayers(g, ClearFrom(g, y))
    ensures TwoValued(g) ==> TwoValued(ClearFrom(g, y))
    decreases BOARD_HEIGHT - y
  {
    if y < BOARD_HEIGHT {
      var g1 := if RowComplete(g, y) then ShiftDown(g, y) else g;
      DeleteLineFrame(g, y);
      ClearFromFrame(g1, y + 1);
    }
  }

  /** The row shift keeps the upper layers and two-valuedness. */
  lemma DeleteLineFrame(g: Grid, pY: int)
    requires WellFormed(g) && pY < BOARD_HEIGHT
    ensures SameUpperLayers(g, ShiftDown(g, pY))
    ensures TwoValued(g) ==> TwoValued(ShiftDown(g, pY))
  {
    var h := ShiftDown(g, pY);
    if TwoValued(g) {
      forall x, y | InBoard(x, y)
        ensures h[x][y][0] == POS_FREE || h[x][y][0] == POS_FILLED
      {
        assert InGrid(x, y, 0);
        if 1 <= y <= pY {
          assert InBoard(x, y - 1);
        }
      }
    }
  }

  /** DeletePossibleLines changes nothing outside the playing layer, and a
      playing layer holding only FREE and FILLED still does afterwards. */
  lemma DeletePossibleLinesFrame(b: BoardState)
    requires Valid(b)
    ensures SameUpperLayers(b.cells, DeletePossibleLines(b).cells)
    ensures TwoValued(b.cells) ==> TwoValued(DeletePossibleLines(b).cells)
  {
    ClearFromFrame(b.cells, 0);
  }
}

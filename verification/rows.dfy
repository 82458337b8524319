/** The playing layer read as a list of rows, top row first, and the
    row-level reference definitions the line-clearing theorems are stated
    against: full rows, the rows that survive a clear, and filled-cell counts.
 */
module Rows {
  import opened Grids

  /** Cells x = 0 .. n-1 of row y of the playing layer, left to right. */
  function RowPrefix(g: Grid, y: int, n: int): (row: seq<int>)
    requires WellFormed(g) && 0 <= y < BOARD_HEIGHT && 0 <= n <= BOARD_WIDTH
    ensures |row| == n
    ensures forall x :: 0 <= x < n ==> row[x] == g[x][y][0]
  {
    if n == 0 then [] else RowPrefix(g, y, n - 1) + [g[n - 1][y][0]]
  }

  /** Row y of the playing layer, read from x = 0 to x = BOARD_WIDTH - 1. */
  function Row(g: Grid, y: int): (row: seq<int>)
    requires WellFormed(g) && 0 <= y < BOARD_HEIGHT
    ensures |row| == BOARD_WIDTH
    ensures forall x :: 0 <= x < BOARD_WIDTH ==> row[x] == g[x][y][0]
  {
    RowPrefix(g, y, BOARD_WIDTH)
  }

  /** Rows 0 .. n-1 of the playing layer, top first. */
  function RowsPrefix(g: Grid, n: int): (rows: seq<seq<int>>)
    requires WellFormed(g) && 0 <= n <= BOARD_HEIGHT
    ensures |rows| == n
    ensures forall y :: 0 <= y < n ==> rows[y] == Row(g, y)
  {
    if n == 0 then [] else RowsPrefix(g, n - 1) + [Row(g, n - 1)]
  }

  /** The playing layer as BOARD_HEIGHT rows, top (y = 0) first. */
  function RowsOf(g: Grid): (rows: seq<seq<int>>)
    requires WellFormed(g)
    ensures |rows| == BOARD_HEIGHT
    ensures forall y :: 0 <= y < BOARD_HEIGHT ==> rows[y] == Row(g, y)
  {
    RowsPrefix(g, BOARD_HEIGHT)
  }

  predicate Full(row: seq<int>) {
    forall x :: 0 <= x < |row| ==> row[x] == POS_FILLED
  }

  /** The rows that are not full, in their original order. */
  function NotFull(rows: seq<seq<int>>): (kept: seq<seq<int>>)
    ensures |kept| <= |rows|
    ensures forall i :: 0 <= i < |kept| ==> !Full(kept[i])
    ensures (forall i :: 0 <= i < |rows| ==> !Full(rows[i])) ==> kept == rows
    ensures (forall i :: 0 <= i < |rows| ==> Full(rows[i])) ==> kept == []
  {
    if |rows| == 0 then []
    else
      var last := rows[|rows| - 1];
      NotFull(rows[..|rows| - 1]) + (if Full(last) then [] else [last])
  }

  /** n copies of one row. */
  function Repeat(row: seq<int>, n: nat): (rows: seq<seq<int>>)
    ensures |rows| == n
    ensures forall i :: 0 <= i < n ==> rows[i] == row
  {
    if n == 0 then [] else Repeat(row, n - 1) + [row]
  }

  /** The number of full rows below the top one. */
  function FullBelowTop(rows: seq<seq<int>>): nat
    requires |rows| >= 1
  {
    |rows| - 1 - |NotFull(rows[1..])|
  }

  /** What clearing the full lines of a board does to its rows, top first:
      every full row below the top one disappears, the surviving rows keep
      their order and sink to the bottom, and the vacated rows at the top are
      filled with copies of the old top row, which is itself never removed. */
  function Cleared(rows: seq<seq<int>>): (result: seq<seq<int>>)
    requires |rows| >= 1
    ensures |result| == |rows|
  {
    var kept := NotFull(rows[1..]);
    Repeat(rows[0], |rows| - |kept|) + kept
  }

  /** Number of FILLED cells in one row. */
  function FilledInRow(row: seq<int>): (n: nat)
    ensures n <= |row|
    ensures n == |row| <==> Full(row)
  {
    if |row| == 0 then 0
    else FilledInRow(row[..|row| - 1]) + (if row[|row| - 1] == POS_FILLED then 1 else 0)
  }

  /** Number of FILLED cells in a list of rows. */
  function Filled(rows: seq<seq<int>>): nat
  {
    if |rows| == 0 then 0 else Filled(rows[..|rows| - 1]) + FilledInRow(rows[|rows| - 1])
  }

  /** Number of FILLED cells in the playing layer. */
  function FilledCells(g: Grid): nat
    requires WellFormed(g)
  {
    Filled(RowsOf(g))
  }

  lemma {:induction false} FilledAppend(a: seq<seq<int>>, b: seq<seq<int>>)
    ensures Filled(a + b) == Filled(a) + Filled(b)
    decreases |b|
  {
    if |b| == 0 {
      assert a + b == a;
    } else {
      var b' := b[..|b| - 1];
      assert (a + b)[..|a + b| - 1] == a + b';
      FilledAppend(a, b');
    }
  }

  /** A row list of width-BOARD_WIDTH rows counts BOARD_WIDTH cells for each
      full row, on top of what its surviving rows count. */
  lemma {:induction false} FilledSplitsByFullness(rows: seq<seq<int>>)
    requires forall i :: 0 <= i < |rows| ==> |rows[i]| == BOARD_WIDTH
    ensures Filled(rows) == Filled(NotFull(rows)) + BOARD_WIDTH * (|rows| - |NotFull(rows)|)
  {
    if |rows| > 0 {
      var init := rows[..|rows| - 1];
      var last := rows[|rows| - 1];
      FilledSplitsByFullness(init);
      assert Filled(rows) == Filled(init) + FilledInRow(last);
      if Full(last) {
        assert NotFull(rows) == NotFull(init) + [] == NotFull(init);
        assert FilledInRow(last) == BOARD_WIDTH;
        assert BOARD_WIDTH * (|rows| - |NotFull(init)|) == BOARD_WIDTH * (|init| - |NotFull(init)|) + BOARD_WIDTH;
      } else {
        assert NotFull(rows) == NotFull(init) + [last];
        FilledAppend(NotFull(init), [last]);
        assert Filled([last]) == Filled([last][..0]) + FilledInRow(last);
      }
    }
  }

  /** n copies of a row count n times that row's FILLED cells. */
  lemma {:induction false} FilledRepeat(row: seq<int>, n: nat)
    ensures Filled(Repeat(row, n)) == n * FilledInRow(row)
  {
    if n > 0 {
      var f := FilledInRow(row);
      assert Repeat(row, n)[..n - 1] == Repeat(row, n - 1);
      FilledRepeat(row, n - 1);
      assert Filled(Repeat(row, n)) == (n - 1) * f + f;
      MulSucc(n - 1, f);
    }
  }

  lemma MulSucc(a: int, b: int)
    ensures a * b + b == (a + 1) * b
  {
  }

  /** The signs of a product of two non-negative factors. */
  lemma MulNonNegative(a: int, b: int)
    requires a >= 0 && b >= 0
    ensures a * b >= 0
    ensures a * b > 0 <==> a > 0 && b > 0
  {
  }

  /** The exact count: clearing replaces each of the n - 1 deleted full rows
      (BOARD_WIDTH FILLED cells each) by one more copy of the top row. */
  lemma ClearedFilledCount(rows: seq<seq<int>>)
    requires |rows| >= 1
    requires forall i :: 0 <= i < |rows| ==> |rows[i]| == BOARD_WIDTH
    ensures Filled(Cleared(rows)) + FullBelowTop(rows) * (BOARD_WIDTH - FilledInRow(rows[0])) == Filled(rows)
  {
    ClearedFilledSum(rows);
    FilledTopAndRest(rows);
    FilledSplitsByFullness(rows[1..]);
    CountArith(FullBelowTop(rows), FilledInRow(rows[0]), Filled(NotFull(rows[1..])),
      Filled(Cleared(rows)), Filled(rows[1..]), Filled(rows));
  }

  /** The cleared rows count the top row once for each of its copies, plus
      the surviving rows. */
  lemma ClearedFilledSum(rows: seq<seq<int>>)
    requires |rows| >= 1
    ensures Filled(Cleared(rows)) == (FullBelowTop(rows) + 1) * FilledInRow(rows[0]) + Filled(NotFull(rows[1..]))
  {
    var kept := NotFull(rows[1..]);
    var n := |rows| - |kept|;
    assert Cleared(rows) == Repeat(rows[0], n) + kept;
    FilledAppend(Repeat(rows[0], n), kept);
    FilledRepeat(rows[0], n);
  }

  /** The top row and the rows below it. */
  lemma FilledTopAndRest(rows: seq<seq<int>>)
    requires |rows| >= 1
    ensures Filled(rows) == FilledInRow(rows[0]) + Filled(rows[1..])
  {
    assert rows == [rows[0]] + rows[1..];
    FilledAppend([rows[0]], rows[1..]);
    assert Filled([rows[0]]) == Filled([rows[0]][..0]) + FilledInRow(rows[0]);
  }

  lemma CountArith(d: int, f0: int, kept: int, cleared: int, rest: int, total: int)
    requires cleared == (d + 1) * f0 + kept && rest == kept + BOARD_WIDTH * d && total == f0 + rest
    ensures cleared + d * (BOARD_WIDTH - f0) == total
  {
    MulSucc(d, f0);
  }

  /** Clearing lines never adds FILLED cells, and removes some exactly when a
      full row below the top one is deleted while the top row is not full. */
  lemma ClearedFilled(rows: seq<seq<int>>)
    requires |rows| >= 1
    requires forall i :: 0 <= i < |rows| ==> |rows[i]| == BOARD_WIDTH
    ensures Filled(Cleared(rows)) <= Filled(rows)
    ensures Filled(Cleared(rows)) < Filled(rows) <==>
      !Full(rows[0]) && exists i :: 1 <= i < |rows| && Full(rows[i])
  {
    var d := FullBelowTop(rows);
    var f0 := FilledInRow(rows[0]);
    var removed := d * (BOARD_WIDTH - f0);
    assert Filled(Cleared(rows)) + removed == Filled(rows) by {
      ClearedFilledCount(rows);
    }
    assert removed >= 0 && (removed > 0 <==> d > 0 && f0 < BOARD_WIDTH) by {
      MulNonNegative(d, BOARD_WIDTH - f0);
    }
    assert d > 0 <==> exists i :: 1 <= i < |rows| && Full(rows[i]) by {
      FullBelowTopPositive(rows);
    }
  }

  /** Some row below the top one is full exactly when FullBelowTop is
      positive. */
  lemma FullBelowTopPositive(rows: seq<seq<int>>)
    requires |rows| >= 1
    ensures FullBelowTop(rows) > 0 <==> exists i :: 1 <= i < |rows| && Full(rows[i])
  {
    var rest := rows[1..];
    if exists i :: 1 <= i < |rows| && Full(rows[i]) {
      var i :| 1 <= i < |rows| && Full(rows[i]);
      NotFullDropsFull(rest, i - 1);
    } else {
      assert forall i :: 0 <= i < |rest| ==> !Full(rest[i]);
    }
  }

  /** A list holding a full row loses at least one row to NotFull. */
  lemma {:induction false} NotFullDropsFull(rows: seq<seq<int>>, k: int)
    requires 0 <= k < |rows| && Full(rows[k])
    ensures |NotFull(rows)| < |rows|
  {
    var init := rows[..|rows| - 1];
    if k < |rows| - 1 {
      NotFullDropsFull(init, k);
    }
  }

  /** Clearing leaves no full row when the top row is not full; when it is
      full, each deleted row leaves one more full copy of it. */
  lemma ClearedFullRows(rows: seq<seq<int>>)
    requires |rows| >= 1
    ensures !Full(rows[0]) ==> forall i :: 0 <= i < |rows| ==> !Full(Cleared(rows)[i])
    ensures Full(rows[0]) ==>
      forall i :: 0 <= i < |rows| ==> (Full(Cleared(rows)[i]) <==> i < |rows| - |NotFull(rows[1..])|)
  {
    var kept := NotFull(rows[1..]);
    var n := |rows| - |kept|;
    var c := Cleared(rows);
    forall i | 0 <= i < |rows|
      ensures c[i] == if i < n then rows[0] else kept[i - n]
    {
      if i < n {
        assert c[i] == Repeat(rows[0], n)[i];
      } else {
        assert c[i] == kept[i - n];
      }
    }
  }

  /** A row with no FILLED cell counts zero. */
  lemma {:induction false} NoFilledInRow(row: seq<int>)
    requires forall x :: 0 <= x < |row| ==> row[x] != POS_FILLED
    ensures FilledInRow(row) == 0
  {
    if |row| > 0 {
      NoFilledInRow(row[..|row| - 1]);
    }
  }

  /** Rows with no FILLED cell count zero. */
  lemma {:induction false} NoFilled(rows: seq<seq<int>>)
    requires forall i, x :: 0 <= i < |rows| && 0 <= x < |rows[i]| ==> rows[i][x] != POS_FILLED
    ensures Filled(rows) == 0
  {
    if |rows| > 0 {
      NoFilledInRow(rows[|rows| - 1]);
      NoFilled(rows[..|rows| - 1]);
    }
  }
}

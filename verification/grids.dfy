/** The board grid: a fixed BOARD_WIDTH x BOARD_HEIGHT x BOARD_DEPTH array of
    integers indexed [x][y][z] (Board.h). Only layer z = 0 takes part in the
    game; y = 0 is the top row.
 */
module Grids {

  const BOARD_WIDTH: int := 7
  const BOARD_HEIGHT: int := 14
  const BOARD_DEPTH: int := 7

  /** The two cell states. The grid holds plain integers, so nothing but the
      operations keeps other values out. */
  const POS_FREE: int := 0
  const POS_FILLED: int := 1

  type Grid = seq<seq<seq<int>>>

  predicate InBoard(x: int, y: int) {
    0 <= x < BOARD_WIDTH && 0 <= y < BOARD_HEIGHT
  }

  predicate InGrid(x: int, y: int, z: int) {
    InBoard(x, y) && 0 <= z < BOARD_DEPTH
  }

  ghost predicate WellFormed(g: Grid) {
    && |g| == BOARD_WIDTH
    && (forall x :: 0 <= x < BOARD_WIDTH ==> |g[x]| == BOARD_HEIGHT)
    && (forall x, y :: InBoard(x, y) ==> |g[x][y]| == BOARD_DEPTH)
  }

  /** Every cell of the playing layer is FREE or FILLED. */
  ghost predicate TwoValued(g: Grid)
    requires WellFormed(g)
  {
    forall x, y :: InBoard(x, y) ==> g[x][y][0] == POS_FREE || g[x][y][0] == POS_FILLED
  }

  /** Every cell of every layer is FREE. */
  ghost predicate AllFree(g: Grid)
    requires WellFormed(g)
  {
    forall x, y, z :: InGrid(x, y, z) ==> g[x][y][z] == POS_FREE
  }

  /** g and h agree on every layer above the playing layer. */
  ghost predicate SameUpperLayers(g: Grid, h: Grid)
    requires WellFormed(g) && WellFormed(h)
  {
    forall x, y, z :: InGrid(x, y, z) && z != 0 ==> g[x][y][z] == h[x][y][z]
  }

  /** The grid whose every cell is FREE. */
  function EmptyGrid(): (g: Grid)
    ensures WellFormed(g) && AllFree(g)
  {
    seq(BOARD_WIDTH, x =>
      seq(BOARD_HEIGHT, y =>
        seq(BOARD_DEPTH, z => POS_FREE)))
  }

  /** Writes v into cell (x, y) of the playing layer. */
  function Set0(g: Grid, x: int, y: int, v: int): (h: Grid)
    requires WellFormed(g) && InBoard(x, y)
    ensures WellFormed(h)
    ensures h[x][y][0] == v
    ensures forall i, j, k :: InGrid(i, j, k) && !(i == x && j == y && k == 0) ==> h[i][j][k] == g[i][j][k]
  {
    g[x := g[x][y := g[x][y][0 := v]]]
  }

  /** Two well-formed grids that agree cell by cell are the same grid. */
  lemma GridExt(g: Grid, h: Grid)
    requires WellFormed(g) && WellFormed(h)
    requires forall x, y, z :: InGrid(x, y, z) ==> g[x][y][z] == h[x][y][z]
    ensures g == h
  {
    forall x | 0 <= x < BOARD_WIDTH
      ensures g[x] == h[x]
    {
      forall y | 0 <= y < BOARD_HEIGHT
        ensures g[x][y] == h[x][y]
      {
        assert forall z :: 0 <= z < BOARD_DEPTH ==> g[x][y][z] == h[x][y][z];
      }
    }
  }
}

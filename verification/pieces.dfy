/** The shape and spawn-offset tables of the falling pieces, and the three
    lookups the board uses (Pieces.cpp).

    The contents of the tables are not part of this model: a table is a
    parameter, constrained only by its shape. Each (kind, rotation) pair owns a
    5x5 matrix of block codes and a two-component spawn offset. The number of
    kinds and of rotations is whatever the table holds.
 */
module Pieces {

  /** Side of the square local matrix of a piece (PIECE_BLOCKS). */
  const PIECE_BLOCKS: int := 5

  /** Block codes stored in a shape matrix. */
  const NO_BLOCK: int := 0
  const NORMAL_BLOCK: int := 1
  const PIVOT_BLOCK: int := 2

  predicate IsBlockCode(v: int) {
    v == NO_BLOCK || v == NORMAL_BLOCK || v == PIVOT_BLOCK
  }

  /** A 5x5 matrix of block codes, indexed [row][column]. */
  ghost predicate IsShape(m: seq<seq<int>>) {
    && |m| == PIECE_BLOCKS
    && forall i :: 0 <= i < PIECE_BLOCKS ==>
         |m[i]| == PIECE_BLOCKS && forall j :: 0 <= j < PIECE_BLOCKS ==> IsBlockCode(m[i][j])
  }

  /** shapes[kind][rotation] is a shape matrix; initialPositions[kind][rotation]
      is the pair (horizontal, vertical) spawn displacement. */
  datatype PieceTable = PieceTable(
    shapes: seq<seq<seq<seq<int>>>>,
    initialPositions: seq<seq<seq<int>>>)

  ghost predicate ValidTable(t: PieceTable) {
    && |t.initialPositions| == |t.shapes|
    && forall p :: 0 <= p < |t.shapes| ==>
         && |t.initialPositions[p]| == |t.shapes[p]|
         && (forall r :: 0 <= r < |t.shapes[p]| ==> IsShape(t.shapes[p][r]))
         && (forall r :: 0 <= r < |t.initialPositions[p]| ==> |t.initialPositions[p][r]| == 2)
  }

  /** (p, r) names an entry of the table. */
  predicate IsPiece(t: PieceTable, p: int, r: int) {
    0 <= p < |t.shapes| && 0 <= r < |t.shapes[p]|
  }

  predicate IsLocal(i: int, j: int) {
    0 <= i < PIECE_BLOCKS && 0 <= j < PIECE_BLOCKS
  }

  /** The block code at row i, column j of piece p in rotation r. The third
      argument selects the row (the outer index of the matrix). */
  function GetBlockType(t: PieceTable, p: int, r: int, i: int, j: int): (code: int)
    requires ValidTable(t) && IsPiece(t, p, r) && IsLocal(i, j)
    ensures IsBlockCode(code)
  {
    t.shapes[p][r][i][j]
  }

  /** Whether the local cell (i, j) of the piece is part of it: the board only
      tells a zero code from a non-zero one. */
  predicate Occupied(t: PieceTable, p: int, r: int, i: int, j: int)
    requires ValidTable(t) && IsPiece(t, p, r) && IsLocal(i, j)
  {
    GetBlockType(t, p, r, i, j) != NO_BLOCK
  }

  function GetXInitialPosition(t: PieceTable, p: int, r: int): int
    requires ValidTable(t) && IsPiece(t, p, r)
  {
    t.initialPositions[p][r][0]
  }

  function GetYinitialPosition(t: PieceTable, p: int, r: int): int
    requires ValidTable(t) && IsPiece(t, p, r)
  {
    t.initialPositions[p][r][1]
  }

  /** The two spawn lookups together return the whole table entry: nothing of
      it is lost and nothing else is consulted. */
  lemma InitialPositionLookups(t: PieceTable, p: int, r: int)
    requires ValidTable(t) && IsPiece(t, p, r)
    ensures [GetXInitialPosition(t, p, r), GetYinitialPosition(t, p, r)] == t.initialPositions[p][r]
  {
  }

  /** A block code read through GetBlockType is one of the three codes, and
      the cell is occupied exactly when it is a normal or a pivot block. */
  lemma OccupiedCodes(t: PieceTable, p: int, r: int, i: int, j: int)
    requires ValidTable(t) && IsPiece(t, p, r) && IsLocal(i, j)
    ensures Occupied(t, p, r, i, j) <==>
              GetBlockType(t, p, r, i, j) in {NORMAL_BLOCK, PIVOT_BLOCK}
  {
  }
}

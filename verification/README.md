# Falling-block puzzle board, modelled in Dafny

This project models the game logic of a small 3-D falling-block puzzle written in
C++: the `Board` class (Board.h, Board.cpp) and the `Pieces` lookups it uses
(Pieces.cpp). The board is a 7 x 14 x 7 integer grid `mBoard[x][y][z]`. Only layer
z = 0 takes part in the game, and y = 0 is the top row. A cell is `POS_FREE` (0) or
`POS_FILLED` (1). A piece is a 5 x 5 matrix of block codes, looked up by kind and
rotation.

The model has two levels. The pure level treats the board as a value
`BoardState(cells, pieces)`. Each loop of `StorePiece`, `IsGameOver`,
`DeleteLine`, `DeletePossibleLines` and `IsPossibleMovement` becomes a recursive
function that walks the same indices in the same order, and its contract says,
cell by cell, what the loop leaves behind; the exception is `ClearFrom`, the
scan of `DeletePossibleLines`, whose effect on the rows is stated in module
`LineClearing`. `InitBoard`'s three loops only write
POS_FREE everywhere, so the pure `InitBoard` returns the empty grid directly.
The imperative level is a class over a mutable `array3<int>` whose methods run
the C++ loops on the array. The contract of each method that mirrors a member
function says that the board it leaves behind, read as a value, is the one the
pure function computes (or, for a read-only method, that it answers as the pure
function does). The helper methods for single loops state their effect on the
array cells directly. Module by module:

- `Pieces` (pieces.dfy): the shape and spawn tables as a parameter, and
  `GetBlockType`, `GetXInitialPosition` and `GetYinitialPosition`.
- `Grids` (grids.dfy): the dimensions, the cell states, the grid type and
  single-cell update.
- `Rows` (rows.dfy): the playing layer read as a list of rows. It also holds the
  reference definitions that the line-clearing results are stated against:
  full rows, surviving rows, the cleared row list and FILLED-cell counts.
- `Board` (board.dfy): `InitBoard`, `StorePiece`, `IsFreeBlock`, `IsGameOver`,
  `DeleteLine` and `DeletePossibleLines`.
- `LineClearing` (line_clearing.dfy): what `DeleteLine` and
  `DeletePossibleLines` do to the row list. The loop invariant of the scan is
  proved step by step.
- `Movement` (movement.dfy): `IsPossibleMovement` as written, and a corrected
  version. Both are one scan, told apart by a `Variant`.
- `MovementFindings` (movement_findings.dfy): concrete inputs on which the code
  as written misbehaves.
- `BoardProperties` (board_properties.dfy): properties that relate several
  operations.
- `BoardObjects` (board_objects.dfy): the class `BoardObject` over an
  `array3<int>`, with one method per member function. The inner loops of
  `StorePiece` and `IsPossibleMovement`, and the body of `DeletePossibleLines`'s
  for loop, are methods of their own; the loops of `InitBoard`, `IsGameOver` and
  `DeleteLine` stay inline.

Where the code differs from its comments or from the intended design, the model
follows the code:

- Construction does not clear the grid. The constructor (Board.cpp:8-11) only
  stores the piece table. `NewBoard` takes the prior memory contents as a
  parameter, and `InitBoard` is a separate step.
- `IsGameOver` scans column x = 0 (`mBoard[0][y][0]`), not the top row that its
  comment names.
- `DeletePossibleLines` never clears row 0. `DeleteLine` copies row y - 1 into
  row y for y = pY down to 1 and leaves row 0 as it was. After k deletions, rows
  0..k all hold copies of the old top row.

Out-of-range array accesses are handled as follows. `StorePiece`, `IsFreeBlock`
and `DeleteLine` require the indices they touch to be in range, as their callers
must ensure. The two reads in `IsPossibleMovement` that can leave their arrays
are modelled as the outcome `UndefinedBehaviour` rather than excluded. Separately,
`IsPossibleMovementAsWritten` proves that the outcome is defined and exact
whenever the 5 x 5 window lies inside the board.

## Model

| member | source | states |
|---|---|---|
| Pieces.GetBlockType | Pieces.cpp:5-11 | the block code at local row i, column j (the third argument is the outer index) is one of no block, normal block or pivot block |
| Pieces.OccupiedCodes | Pieces.cpp:5-11 | a local cell counts as part of the piece exactly when its code is a normal or a pivot block |
| Pieces.InitialPositionLookups | Pieces.cpp:17-29 | the horizontal and vertical spawn lookups return components 0 and 1 of the table entry, together the whole entry |
| BoardProperties.ConstructionDoesNotClear | Board.cpp:8-11 | the constructor leaves the grid as memory held it: some prior contents make a new board report game over and hold a non-free cell |
| Board.InitBoard | Board.cpp:19-31 | every cell of every layer is POS_FREE afterwards, and the piece table is kept |
| BoardProperties.InitBoardStartsEmpty | Board.cpp:19-31 | after InitBoard the game is not over, every in-range IsFreeBlock is true, the layer is two-valued and counts no FILLED cell |
| Board.NewBoard | Board.cpp:8-11 | the new board is well formed and keeps the given piece table; that the grid is left as memory held it is stated by BoardProperties.ConstructionDoesNotClear |
| Board.StoreColumn | Board.cpp:46-53 | the inner loop fills exactly the covered cells of matrix column x2 from row y2 down, and nothing else changes |
| Board.StoreColumns | Board.cpp:44-54 | the outer loop fills exactly the covered cells of matrix columns x2..4 |
| Board.StorePiece | Board.cpp:44-54 | cell (x, y, 0) becomes FILLED exactly where the piece's local cell (y - pY, x - pX) is non-zero; every other cell on every layer is unchanged, and a two-valued layer stays two-valued |
| BoardProperties.StoreIdempotent | Board.cpp:49-51 | storing the same piece at the same place twice equals storing it once |
| BoardProperties.StoreNeverFrees | Board.cpp:49-51 | a cell that was not free before a store is still not free after it |
| BoardProperties.FreeBlockAfterStore | Board.cpp:44-54 | after a store a cell is free exactly when it was free and the piece does not cover it |
| Board.IsFreeBlock | Board.cpp:124-131 | true exactly when the playing-layer cell holds POS_FREE, and on a two-valued layer exactly when it is not FILLED |
| Board.ScanColumnZero | Board.cpp:69-76 | the loop from row y finds a FILLED cell in column 0 at some row y' >= y exactly when one exists |
| Board.IsGameOver | Board.cpp:66-77 | true exactly when some cell mBoard[0][y][0], 0 <= y < 14, is FILLED |
| BoardProperties.FullTopRowIsGameOver | Board.cpp:66-77 | a board whose top row is full is over |
| BoardProperties.GameOverReadsColumnZero | Board.cpp:68-71 | a block in the top row away from column 0 does not end the game; a block at the bottom of column 0 does |
| Board.CopyRowDown | Board.cpp:87-90 | the inner loop copies row y - 1 into row y for columns x..6 and leaves every other cell alone |
| Board.ShiftDown | Board.cpp:85-91 | rows 1..pY take the old rows 0..pY-1 of the playing layer; row 0, the rows below pY and the upper layers keep their values |
| Board.DeleteLine | Board.cpp:82-92 | DeleteLine(pY) moves rows 0..pY-1 down one row, leaves row 0 as it was, keeps the other layers, and changes nothing for pY <= 0 |
| LineClearing.DeleteLineRows | Board.cpp:82-92 | on the row list, DeleteLine(pY) removes row pY and adds a second copy of the top row in front |
| Board.FirstNotFilled | Board.cpp:103-111 | the while loop stops at the first column at or after x whose cell is not FILLED, or at 7 |
| Board.RowComplete | Board.cpp:103-113 | the scan deletes row y exactly when every cell of the row is FILLED |
| Board.ClearFrom | Board.cpp:101-117 | the scan from row y leaves a well-formed grid; what it does to the rows is stated by LineClearing.ClearFromRows |
| Board.DeletePossibleLines | Board.cpp:99-118 | the result is a valid board with the same piece table; what it does to the rows is stated by LineClearing.DeletePossibleLinesRows |
| LineClearing.ClearFromRows | Board.cpp:101-117 | from any row where the loop invariant holds, the rest of the scan ends at the cleared row list |
| LineClearing.DeletePossibleLinesRows | Board.cpp:99-118 | afterwards the rows are copies of the old top row followed by the non-full rows 1..13 in their old order |
| LineClearing.DeletePossibleLinesNoFullRow | Board.cpp:99-118 | with no full row below the top one the board is unchanged |
| LineClearing.SingleFullRow | Board.cpp:113-116 | when row y >= 1 is the only full row below the top, DeletePossibleLines equals DeleteLine(y) |
| LineClearing.DeletePossibleLinesNeverAddsBlocks | Board.cpp:99-118 | the number of FILLED cells never grows, and shrinks exactly when a full row below the top is deleted while the top row is not full |
| LineClearing.DeletePossibleLinesFullRowsLeft | Board.cpp:99-118 | no full row is left when the top row is not full; when it is full, the full rows left are its copies at rows 0..d, where d is the number of deleted rows |
| LineClearing.DeletePossibleLinesFrame | Board.cpp:99-118 | the upper layers are unchanged and a two-valued playing layer stays two-valued |
| Rows.ClearedFilledCount | Board.cpp:113-116 | each deleted row takes away 7 FILLED cells and brings back one copy of the top row |
| Rows.ClearedFilled | Board.cpp:113-116 | clearing never adds FILLED cells; it removes some exactly when a full row below a non-full top row is deleted |
| Rows.ClearedFullRows | Board.cpp:113-116 | with a non-full top row the cleared list has no full row; with a full top row its full rows are exactly the copies of the top row |
| Movement.CellCheck | Board.cpp:145-160 | the body of the inner loop passes a local cell only if it is empty or lands on a FREE cell inside the board; the corrected variant decides that exactly for every cell, and the code as written decides it exactly for a cell inside the board (outside it, the read at column y1 can refuse an empty cell, see Findings) |
| Movement.ScanColumn | Board.cpp:143-161 | the inner loop passes column x2 only if every cell from row y2 down is empty or lands on a FREE cell, and decides it exactly for a column inside the board |
| Movement.ScanColumns | Board.cpp:141-162 | the outer loop answers true only if columns x2..4 all pass, and decides it exactly for columns that lie inside the board |
| Movement.IsPossibleMovementAsWritten | Board.cpp:137-165 | a true answer means every occupied cell lands on a FREE cell inside the board; when the 5 x 5 window lies inside the board the run is defined and answers exactly that |
| Movement.IsPossibleMovement | Board.cpp:137-165 | the corrected test is always defined and answers true exactly when every occupied local cell lands inside the board on a FREE cell |
| Movement.VersionsAgreeInside | Board.cpp:146-148 | inside the board the code as written and the corrected code give the same answer |
| Movement.PossibleThenStore | Board.cpp:137-165 | an accepted placement fits the board, and storing it afterwards only turns FREE cells into FILLED ones |
| Movement.PossibleAsWrittenThenStore | Board.cpp:137-165 | a true answer from the code as written is equally safe to store |
| BoardProperties.StoredPieceBlocksItself | Board.cpp:154-158 | once a piece with a block is stored, the corrected test refuses the same piece at the same place, and the code as written never accepts it (it refuses or reads out of range) |
| BoardProperties.PossibleOnEmptyBoard | Board.cpp:145-152 | on an empty playing layer the corrected test accepts a placement exactly when every block lands inside the board; the code as written accepts only such placements, and decides it exactly for a placement whose 5 x 5 window lies inside the board (outside it, it can refuse a placement that fits, see Findings) |
| Movement.PlaceableFits | Board.cpp:137-165 | a placement whose every occupied cell lands on a FREE cell inside the board fits the board, as StorePiece requires |
| Movement.StorePlaceable | Board.cpp:49-51 | storing a placeable piece only turns FREE playing-layer cells into FILLED ones |
| Board.StoreColumnsLayers | Board.cpp:44-54 | the store loops leave the upper layers alone and write only FILLED into the playing layer |
| BoardObjects.BoardObject.constructor | Board.cpp:8-11 | keeps the piece table and allocates a fresh array, owned by the new board, whose contents are unconstrained |
| BoardObjects.BoardObject.IsFreeBlock | Board.cpp:124-131 | the method reads the array cell and answers as the pure IsFreeBlock on the board the array holds |
| BoardObjects.BoardObject.IsGameOver | Board.cpp:66-77 | the loop answers true exactly when some cell of column 0 of the playing layer in the array is FILLED, as the pure IsGameOver does |
| BoardObjects.BoardObject.InitBoard | Board.cpp:19-31 | the three nested loops leave the array holding the cleared board |
| BoardObjects.BoardObject.StoreColumnAt | Board.cpp:46-53 | the inner loop fills exactly the covered cells of board column x1 and leaves every other array cell alone |
| BoardObjects.BoardObject.StorePiece | Board.cpp:44-54 | the loops leave the array holding the board that the pure StorePiece computes |
| BoardObjects.BoardObject.DeleteLine | Board.cpp:82-92 | the loops leave the array holding the board that the pure DeleteLine computes |
| BoardObjects.BoardObject.RowIsComplete | Board.cpp:103-111 | the while loop finds row y complete exactly when every cell of the row is FILLED |
| BoardObjects.BoardObject.ClearRow | Board.cpp:102-117 | one pass of the for loop deletes row y exactly when it is complete |
| BoardObjects.BoardObject.DeletePossibleLines | Board.cpp:99-118 | the loops leave the array holding the board that the pure DeletePossibleLines computes |
| BoardObjects.BoardObject.ScanColumnAt | Board.cpp:143-161 | the inner loop returns early with a refusal exactly when the pure scan of column x2 refuses |
| BoardObjects.BoardObject.IsPossibleMovement | Board.cpp:137-165 | on every run that reads no array out of range, the method answers as the code as written does in the pure model |
| MovementFindings.SpuriousRejection | Board.cpp:146-150 | at (3, 0), with a piece whose one block is local (0, 0) and an empty board, the code as written answers false and the corrected code true |
| MovementFindings.AboveBoardUndefined | Board.cpp:145-148 | for every board and piece, a placement with pY < 0 reaches an out-of-range shape read at its first cell, so the code as written has no defined answer |
| MovementFindings.UnguardedFreeBlockRead | Board.cpp:154-158 | at (-1, 1), with the same piece, the code as written calls IsFreeBlock(-1, 1), and the corrected code answers false |

## Left out

- Main.cpp, Model.cpp, Model.h, Mesh.h, Application.cpp, Application.h and AppManager.h are not part of this model. They hold windowing, input polling, rendering, asset import and floating-point camera maths, and none of them is game logic.
- Game.h is not part of this model: it holds declarations with no implementation.
- Defines.h repeats the board constants and adds a frame timer (`WAIT_TIME`); timing is not modelled.
- TetrisShapes.h is not part of this model. The shape and spawn tables are a parameter `PieceTable` whose entries are 5 x 5 matrices of codes 0, 1 or 2 and two-component offsets. The number of kinds and rotations is whatever the table holds.
- Memory is not modelled. A write out of range in `StorePiece`, a read out of range in `IsFreeBlock`, `DeleteLine(pY)` with pY >= 14 and `GetBlockType` with a kind or rotation outside the table are excluded by preconditions. `IsPossibleMovement`'s two stray reads end in the outcome `UndefinedBehaviour` and carry no value.
- The public/private split of Board.h (`InitBoard` and `DeleteLine` private, `mBoard` public) is not enforced. Every method of `BoardObject` is callable, and the array is a constant field.
- BoardObjects.BoardObject.IsPossibleMovement: requires that the run reads no array out of range, because C++ gives such a run no result. `Movement.IsPossibleMovementAsWritten` describes those runs.
- The `BoardObject` constructor takes only the piece table, as `Board(Pieces *pPieces)` does, and allocates a fresh array whose contents are arbitrary until `InitBoard` runs.
- The contracts that mention `old` (`InitBoard`, `StoreColumnAt`, `StorePiece`, `DeleteLine` and `DeletePossibleLines` of `BoardObject`) tie each method to the pure model. The properties themselves are proved on the pure model.
- The destructor does nothing and is not modelled.
- Cell values are unbounded integers. The code does no arithmetic on them, so their 32-bit width plays no part.
- Coordinates are unbounded integers, but the C++ code holds them in 32-bit `int`. It computes `pX + PIECE_BLOCKS` and `pY + PIECE_BLOCKS` (Board.cpp:44, 46, 141, 143), which overflows, with undefined behaviour, when pX or pY exceeds 2147483642. The model assumes coordinates of at most 2147483642 and does not count that overflow as an `UndefinedBehaviour` outcome. The game only moves pieces near the 7 x 14 board, so such coordinates do not arise.
- Movement.IsPossibleMovementAsWritten: "a true answer is always right" holds for coordinates of at most 2147483642. Above that, the C++ loop bounds overflow and the code has no defined answer, whereas the model still answers.
- Board.ClearFrom: its contract states only that the grid stays well formed. Its effect on the rows is stated by LineClearing.ClearFromRows, because module LineClearing builds on module Board.
- Board.DeletePossibleLines: its contract states only validity and the kept table. Its effect on the rows is stated by LineClearing.DeletePossibleLinesRows and the other LineClearing lemmas, for the same reason.
- Board.NewBoard: its contract states only that the board is well formed and keeps the table. What it does not do (clear the grid) is stated by BoardProperties.ConstructionDoesNotClear.

## Findings

| source | as written | input that shows it | evidently intended | confidence | as-written member | corrected member |
|---|---|---|---|---|---|---|
| Board.cpp:148 | the out-of-bounds branch reads `GetBlockType(pPiece, pRotation, y2, y1)`, with the board row y1 as the matrix column; for pY < 0 the first read is at a negative column, so every placement above the board is undefined (MovementFindings.AboveBoardUndefined) | pX = 3, pY = 0, a piece whose only block is local (0, 0), an empty board: matrix column 4 lands on board column 7, and the read at column y1 = 0 finds the block of column 0, so the answer is false although the one block lands on the FREE cell (3, 0) | read column x2, as the collision test two lines below does | high, not executed | MovementFindings.SpuriousRejection | Movement.IsPossibleMovement |
| Board.cpp:156 | the collision test calls `IsFreeBlock(x1, y1)` guarded only by `y1 >= 0`, so x1 may lie outside 0..6 | pX = -1, pY = 1, the same piece: the out-of-bounds branch reads column y1 = 1, finds no block, and the collision test reads `mBoard[-1][1][0]` | an occupied cell outside the board is refused before the board is read; with line 148 reading column x2 this always happens, so the same correction removes both faults | high, not executed | MovementFindings.UnguardedFreeBlockRead | Movement.IsPossibleMovement |

# Tic-tac-toe engine, modelled in Dafny

This project models the rules engine of a console tic-tac-toe game written in
Java (`src/tictactoe/Main.java`). The engine has these parts:

- A `Field`: a square two-dimensional array of cells. Cells are addressed by
  1-based coordinates (x, y), where x is the column and y = size is the top
  row.
- A `Game`: the field, the number of marks in a line needed to win, and the
  player whose turn it is.
- The cell types `EMPTY`, `X` and `O`, and a lookup from display symbol to
  cell type.
- The five game outcomes.
- A status computation. It counts marks, scans every column, every row and
  both main diagonals, and reports one of `IMPOSSIBLE`, `X_WINS`, `O_WINS`,
  `DRAW` or `NOT_FINISHED`.
- The program around these: the 3-by-3 start field, reading a field from a
  cells string, the status messages, and the main loop. The loop plays
  alternating moves until the game is decided.

The modules follow the source's types:

- `Cells` (cells.dfy): the cell type and its symbols, the outcomes, and
  `FindBySymbol`.
- `Boards` (boards.dfy): the grid as a value (`seq<seq<CellType>>`, row 0 on
  top). It defines the mark counts, the four kinds of line, the
  line-qualifying predicate `HasLine`, the outcome function `Status`, and
  alternation of play, with the lemmas about them. It also holds the scan
  counts that the field's loops maintain, with lemmas tying them to the lines.
- `Fields` (fields.dfy): the class `Field`. It wraps an `array2<CellType>` and
  keeps a ghost `Grid` that mirrors it. Its loops are proved against `Count`
  and `HasLine`.
- `Games` (games.dfy): `Coords` and the class `Game`. `GetStatus` is proved to
  compute `Status`.
- `TicTacToe` (main.dfy): `SIZE`, `IN_ROW_TO_WIN`, `InitField`, `ParseCells`
  and `GetStatusMessage`. The main loop is modelled as the function `Play`
  over a sequence of entered coordinates. From the start, no input reaches an
  impossible state.

The line scan counts the cells of a line that hold the mark. The counters are
never reset, so the marks need not be adjacent: `HasLine` means "at least
`number` of the line's cells hold the mark" (`NonAdjacentCellsCount`). In the
shipped setting the threshold equals the side of the field, and then this is
the same as a line made entirely of the mark (`FullLineAtSize`). A threshold
below 1 never qualifies, because a counter is compared only after it has been
incremented.

## Model

| member | source | states |
|---|---|---|
| Cells.Symbol | src/tictactoe/Main.java:172-182 | every cell type is displayed as one of the characters `_`, `X`, `O` |
| Cells.SymbolInjective | src/tictactoe/Main.java:172-176 | distinct cell types have distinct symbols |
| Cells.FindBySymbol | src/tictactoe/Main.java:184-191 | returns the cell type displayed as `ch`, and None (null) exactly when `ch` is none of `_`, `X`, `O` |
| Cells.DecodesUnique | src/tictactoe/Main.java:184-191 | a character has at most one correct lookup result, so the one returned is the only one |
| Boards.Put | src/tictactoe/Main.java:207-209 | writing a cell sets that cell to the new value, keeps every other cell and keeps the grid square |
| Boards.CountBound | src/tictactoe/Main.java:211-221 | the count of a cell type is at most size², and the counts of EMPTY, X and O add up to size² |
| Boards.EmptyBoardCounts | src/tictactoe/Main.java:25-33 | a fresh field has size² empty cells and no X or O |
| Boards.CountAfterPut | src/tictactoe/Main.java:207-209 | overwriting a cell moves one unit of count from the old cell type to the new one and leaves the other counts unchanged |
| Boards.EmptyCellExists | src/tictactoe/Main.java:156-160 | the count of empty cells is positive exactly when some in-range cell is empty |
| Boards.ColumnsCountIsCount | src/tictactoe/Main.java:211-221 | counting column by column, the order the loop visits cells in, gives the grid-wide count |
| Boards.FullLineAtSize | src/tictactoe/Main.java:223-257 | at threshold = size, a line qualifies exactly when it is entirely made of the mark |
| Boards.NonAdjacentCellsCount | src/tictactoe/Main.java:239-254 | the scan counts occurrences, not runs: at threshold 2 the row X O X qualifies although its X's are not adjacent |
| Boards.LineImpliesCount | src/tictactoe/Main.java:145-146 | a qualifying line means the mark has at least `number` cells on the grid |
| Boards.CanWinIffLine | src/tictactoe/Main.java:145-146 | the count test before the line scan is redundant: the count test and the line scan together hold exactly when the line scan alone does |
| Boards.PutKeepsOtherLines | src/tictactoe/Main.java:135-137 | putting a mark on an empty cell leaves every line test for the other mark unchanged |
| Boards.ColumnOrRowLine | src/tictactoe/Main.java:239-254 | column i or row i holding at least `number` cells of the mark (`number` ≥ 1) is a qualifying line, so the inner loop's true answer is a line |
| Boards.DiagonalScanFound | src/tictactoe/Main.java:226-238 | when either diagonal counter reaches a positive value, a line qualifies at that value |
| Boards.NoLineFound | src/tictactoe/Main.java:223-257 | when every counter ends below the threshold, or the threshold is below 1, no line qualifies |
| Boards.StatusCases | src/tictactoe/Main.java:139-161 | each outcome is characterised by the mark gap, the two line tests and the empty cells, in the source's order of priority: impossible on a gap above one or two lines, otherwise the mark with a line wins, otherwise a draw exactly when no cell is empty |
| Boards.EmptyBoardNotFinished | src/tictactoe/Main.java:10-13 | a fresh field of side at least 1 is in play at any threshold |
| Boards.NextPlayer | src/tictactoe/Main.java:119-125 | the next player is never EMPTY and differs from the current one |
| Boards.TurnKeepsAlternation | src/tictactoe/Main.java:114-117 | a move onto an empty cell keeps "#X = #O with X to move, #X = #O + 1 with O to move" |
| Boards.TurnNeverImpossible | src/tictactoe/Main.java:13-19 | from a field in play with alternating marks, a legal move never produces an impossible field |
| Fields.Field.constructor | src/tictactoe/Main.java:198-201 | the field takes over the square array; its size is the array's side and its grid mirrors the array |
| Fields.Field.GetType | src/tictactoe/Main.java:203-205 | returns the cell at column x, row y counted from the bottom |
| Fields.Field.SetType | src/tictactoe/Main.java:207-209 | afterwards the cell at (x, y) holds t and every other cell is unchanged |
| Fields.Field.GetNumberOfType | src/tictactoe/Main.java:211-221 | returns the number of cells holding t, at most size² |
| Fields.Field.ContainsNumberOfTypeInRow | src/tictactoe/Main.java:223-257 | returns true exactly when some column, row or main diagonal has at least `number` cells holding t (`number` ≥ 1) |
| Fields.Field.ScanColumnAndRow | src/tictactoe/Main.java:239-254 | returns true exactly when `number` ≥ 1 and column i or row i holds at least `number` cells of t |
| Games.Game.constructor | src/tictactoe/Main.java:108-112 | the game holds the given field, threshold and first player, and is valid when its field is |
| Games.Game.MakeTurn | src/tictactoe/Main.java:114-117 | afterwards the cell holds the old current player, the turn has passed, and alternation is kept when the cell was empty |
| Games.Game.SwitchPlayer | src/tictactoe/Main.java:119-125 | X hands the turn to O and anything else hands it to X |
| Games.Game.IsCellOccupied | src/tictactoe/Main.java:127-129 | true exactly when the cell holds X or O |
| Games.Game.CanOccupyCell | src/tictactoe/Main.java:131-133 | true exactly when the cell is EMPTY, and then the field has an empty cell |
| Games.Game.OccupyCell | src/tictactoe/Main.java:135-137 | afterwards the cell at `coords` holds the given cell type and nothing else has changed |
| Games.Game.GetStatus | src/tictactoe/Main.java:139-161 | returns `Status` of the field at the game's threshold; `StatusCases` says what each outcome means |
| TicTacToe.InitField | src/tictactoe/Main.java:25-33 | returns a new SIZE-by-SIZE field with every cell EMPTY |
| TicTacToe.ParseCells | src/tictactoe/Main.java:43-51 | the cell in array row i, column j is the lookup of character i·SIZE + j, or None for a non-symbol |
| TicTacToe.RenderThenParse | src/tictactoe/Main.java:43-51 | the cells string of a grid, read back at i·SIZE + j, gives each cell of the grid |
| TicTacToe.GetStatusMessage | src/tictactoe/Main.java:85-100 | every outcome has a non-empty message |
| TicTacToe.StatusMessagesDistinct | src/tictactoe/Main.java:85-100 | distinct outcomes have distinct messages |
| TicTacToe.Play | src/tictactoe/Main.java:13-20 | the main loop never changes the field's shape |
| TicTacToe.StartInPlay | src/tictactoe/Main.java:10-13 | the start field is in play, with X to move and equal counts of X and O |
| TicTacToe.PlayKeepsAlternation | src/tictactoe/Main.java:13-20 | each state of the main loop keeps the marks alternating and is never impossible |
| TicTacToe.MainLoopNeverImpossible | src/tictactoe/Main.java:9-23 | from the start, whatever coordinates are entered, the game never becomes impossible and #X − #O stays 0 or 1 |

## Left out

- Console I/O is not modelled. This covers `main`'s prompts, `readField`, `readCoords`, `printField` and `printStatus`. The coordinates a player enters are the input sequence of `Play`.
- The range check of `readCoords` (Main.java:60) is kept. It is the `InBounds` precondition of the coordinate-taking members, and `Play` passes over out-of-range coordinates.
- `readField` is not modelled. It hands an array that may hold nulls from `parseCells` to `Field`. The model's `Field` holds cell types only, so `ParseCells` returns an `Option` array that no field is built from.
- The `byte` width of sizes, coordinates and counters is not modelled, including the `(byte)` casts. With SIZE = 3, no value comes near the byte range.
- `Field` requires a square array, which `getType` assumes. It takes the array over: no other reference to the array is modelled, so aliasing is not captured.
- `Game.field` is not `final` in the source. The model makes it a constant because nothing reassigns it.
- `GetStatusMessage` has no `default` branch. The source's `default: return null` cannot be reached for the closed set of outcomes.
- `Fields.Field.ScanColumnAndRow`: the inner loop of `containsNumberOfTypeInRow` is a method of its own, called once per outer iteration. It behaves the same, including the early return.
- ParseCells: the Dafny string is a sequence of Unicode scalar values, while Java's `charAt` indexes UTF-16 code units. The i·SIZE + j indexing therefore matches the source only for strings without supplementary characters. Lone surrogates, which a Java string may hold, have no Dafny counterpart.
- `ParseCells` requires a string of at least SIZE² characters. A shorter string makes the source throw, and the model does not model the exception.
- `Games.Game.MakeTurn` does not check that the cell is empty, as in the source. Its alternation guarantee therefore holds only when the cell was empty.
- `Games.Game.IsCellOccupied`, `Games.Game.CanOccupyCell` and `Games.Game.OccupyCell` require in-range coordinates. For other coordinates the source throws an index exception, which the model leaves out.

# Minesweeper field, modelled in Dafny

This project models the core of a terminal minesweeper game written in C
(`main.c`): the **Field** and the **per-keystroke step** of the game loop.

A Field holds the following:

- a `rows` x `cols` grid kept in two parallel flat arrays, indexed
  `row * cols + col`;
  - `cells` holds the ground truth of each position: EMPTY or MINE;
  - `states` holds what the player sees: OPEN, CLOSED or FLAGGED;
- a cursor;
- the counters `numMines` and `numClosed`.

The game loop reads one key at a time:

- `w`/`s`/`a`/`d` move the cursor and stop at the edges;
- space opens the cursor cell;
- `f` toggles a flag;
- any other key is ignored.

On the first open, mines are generated, and redrawn until the cursor cell and
its neighbours are free of mines (the "safe start"). The step reports that the
game is over in two cases:

- a mine was opened; the step then opens every mine for display;
- the number of unopened cells equals the number of mines.

Layout of the project:

- `field_spec.dfy`, module `FieldSpec`. It holds:
  - the value types, and the fault a stopping configuration error reports;
  - row-major index arithmetic and the size_t wrap-around;
  - the two counts, and the pure state transitions for open and flag;
  - the win criterion.
- `neighborhood.dfy`, module `Neighborhood`. It is the reference definition of
  a cell's neighbours and of the mines among them, and it gives their number:
  three at a corner, five on an edge, eight inside.
- `field.dfy`, module `Minefield`. The class `Field` has the C struct's fields,
  arrays written in place by loops, and the C functions as methods. Each method
  is proved against the functions above.
- `controller.dfy`, module `Controller`. It holds `PerformAction`, the switch
  over the key, and `OpenKey`, the branch of that switch for the open key.

The model follows the C code, which differs from a typical minesweeper in
three ways:

- `fieldResize` does not reset the cursor or `numMines`, and it accepts empty
  sizes.
- `numClosed` counts cells that are not OPEN, so FLAGGED cells count too,
  because flagging never changes it.
- Opening a FLAGGED cell is a no-op that reports EMPTY.

Fatal errors are modelled in two ways:

- An out-of-bounds access stops the program with a diagnostic. Here it is a
  precondition of the accessors.
- A mine percentage over 50 also stops the program. Here it is the
  `Fatal(MinePercentageTooHigh)` result, with the field left unchanged.
  `Result` is the one result type: `Ok(value)` or `Fatal(fault)`.

## Model

| member | source | states |
|---|---|---|
| `Minefield.Field.constructor` | main.c:40-49 | A new field has 0 rows and 0 columns, empty arrays, the cursor at (0, 0), and both counters 0. |
| `Minefield.Field.Resize` | main.c:58-69 | After a resize to r x c, both arrays are fresh with r*c elements, every cell is EMPTY, every state is CLOSED, and `numClosed == r*c` (so the counting invariant holds). The cursor and `numMines` are unchanged. |
| `Minefield.Field.AllocateGrid` | main.c:60-67 | Allocating n cells gives fresh arrays of length n, all EMPTY and CLOSED, with no mines and n unopened cells. |
| `FieldSpec.Index` | main.c:76 | Row-major layout: for an in-grid column, the cells of row `row` fill the `cols` flat indices starting at `row*cols`. |
| `Minefield.Field.CellAt` | main.c:71-77 | The content of an in-grid cell is MINE iff the reference predicate `MineAt` holds at that coordinate. |
| `Minefield.Field.StateAt` | main.c:79-85 | The state of an in-grid cell is the element at the flat index whose quotient and remainder by `cols` are (row, col). |
| `FieldSpec.IndexInBounds` | main.c:71-85 | An in-grid (row, col) addresses `row*cols+col < rows*cols`, so the accessors never read outside the arrays. |
| `FieldSpec.IndexRoundTrip` | main.c:76 | The row and column of `row*cols+col` are recovered as its quotient and remainder by `cols`. |
| `FieldSpec.IndexInjective` | main.c:76 | Two in-grid coordinates share a flat index iff they are equal. |
| `FieldSpec.IndexOf` | main.c:103-108 | Every flat index below `rows*cols` is `Index(k / cols, k % cols)` with an in-grid row and column, so a cell can be reached through the coordinate accessor. |
| `Minefield.Field.IsAtCursor` | main.c:87-89 | For in-grid coordinates, "at the cursor" holds iff the cell's flat index is the cursor's. |
| `Minefield.Field.GenerateMines` | main.c:91-110 | A percentage over 50 returns the fault and changes nothing. Otherwise `numMines == rows*cols*p/100 <= rows*cols/2`, exactly `numMines` cells are MINE, the rest are EMPTY, and the states are untouched. |
| `FieldSpec.MineBound` | main.c:92-96 | With p <= 50, `n*p/100 <= n/2`, and it is below n when n > 0. So an EMPTY cell always remains for the next draw. |
| `FieldSpec.EmptyExists` | main.c:103-107 | While fewer cells are mined than exist, some cell is EMPTY, so the rejection-sampling loop can end. |
| `FieldSpec.CountMinesUpdate` | main.c:108 | Writing MINE over an EMPTY cell raises the mine count by exactly one. In general, an overwrite changes the count by the difference of old and new content. |
| `FieldSpec.NoMines` | main.c:100-101 | A grid whose cells are all EMPTY has zero mines, and only such a grid does. |
| `FieldSpec.AllClosed` | main.c:64-68 | A grid whose states are all CLOSED has every cell unopened. |
| `FieldSpec.CountMines` | main.c:37 | The mine count never exceeds the number of cells. |
| `FieldSpec.CountNotOpen` | main.c:37 | The count of unopened cells never exceeds the number of cells. |
| `Minefield.Field.GenerateAtCursor` | main.c:199-209 | A percentage over 50 fails on the first draw and changes nothing. Otherwise the layout it ends with has `rows*cols*p/100` mines, and it succeeds iff that layout is safe: the cursor cell is EMPTY with no mined neighbour. So the retry bound only fires on a layout the program would redraw. |
| `Minefield.CentreOfThreeByThreeNeverSafe` | main.c:199-209 | On a 3 x 3 grid, any layout with a mine has a mine on the centre or next to it. So at 50 percent (4 mines) with the cursor in the centre, the unbounded redraw loop never ends. |
| `Minefield.Field.OpenAtCursor` | main.c:112-120 | A CLOSED cursor cell becomes OPEN, `numClosed` drops by one (size_t arithmetic), and the cell's content is returned. An OPEN or FLAGGED cell is left as is and EMPTY is returned. No other cell changes, and the counting invariant is kept. |
| `FieldSpec.AfterOpen` | main.c:113-119 | Opening turns a CLOSED cell OPEN, leaves an OPEN or FLAGGED cell as it was, and keeps every other cell and the length. |
| `FieldSpec.OpenIsIdempotent` | main.c:112-120 | Opening changes no other cell, leaves the cell not CLOSED, and opening again changes nothing. |
| `FieldSpec.OpenCount` | main.c:114-116 | Opening lowers the count of unopened cells by one exactly when the cell was CLOSED, and otherwise leaves it unchanged. |
| `Minefield.Field.FlagAtCursor` | main.c:122-130 | The cursor state toggles CLOSED and FLAGGED and stays OPEN. Cells, `numClosed` and other states are untouched, and the counting invariant is kept. |
| `FieldSpec.AfterFlag` | main.c:123-129 | Flagging turns CLOSED into FLAGGED and FLAGGED into CLOSED, leaves an OPEN cell (and so the whole grid) as it was, and keeps every other cell and the length. |
| `FieldSpec.Toggled` | main.c:124-129 | A toggle never makes or leaves OPEN, and it changes every CLOSED or FLAGGED state. |
| `FieldSpec.FlagIsInvolution` | main.c:122-130 | Flagging twice restores the original states. |
| `FieldSpec.FlagCount` | main.c:122-130 | Flagging keeps the count of unopened cells. |
| `FieldSpec.CountNotOpenUpdate` | main.c:115-116 | Overwriting one state changes the count of unopened cells by the difference between old and new. |
| `Minefield.Field.CountNeighborMines` | main.c:132-148 | The loop's result equals the number of MINE cells among the in-grid positions within one row and one column, excluding the centre, and it is at most 8. |
| `FieldSpec.SizeT` | main.c:139-140 | A size_t value is below 2^64, equals any in-range integer, and turns -1 into 2^64-1. |
| `FieldSpec.SizeTCoordinate` | main.c:139-142 | A neighbour coordinate one past either edge passes the `< rows` test iff it lies on the grid. Underflow at 0 is skipped, not wrapped onto the grid. |
| `Minefield.ScanStep` | main.c:135-146 | Visiting one offset adds one to the count exactly when that position is a mined neighbour. |
| `Minefield.ScanHit` | main.c:143-144 | A mined neighbour at the visited offset is new to the positions seen so far. |
| `Neighborhood.NeighborsAreBlock` | main.c:135-142 | A cell's neighbours are the block of rows and columns it spans, without the cell itself. |
| `Neighborhood.NeighborsSize` | main.c:135-142 | The number of neighbours is (rows spanned) x (columns spanned) - 1. |
| `Neighborhood.ProductSize` | main.c:135-136 | A block of rows x columns has the product of their numbers of positions. |
| `Neighborhood.LineSize` | main.c:136 | One row of a block has as many positions as there are columns. |
| `Neighborhood.SpanSize` | main.c:135-142 | A cell spans itself plus one row (or column) on each side that is on the grid. |
| `Neighborhood.CornerHasThree` | main.c:132-148 | On a grid with at least 2 rows and 2 columns, a corner has exactly 3 neighbours. |
| `Neighborhood.EdgeHasFive` | main.c:132-148 | A cell on an edge, other than a corner, has exactly 5 neighbours. |
| `Neighborhood.InteriorHasEight` | main.c:132-148 | A cell away from every edge has exactly 8 neighbours. |
| `Neighborhood.AtMostEight` | main.c:132-148 | The mined neighbours are among the neighbours, and there are at most 8 of those. |
| `Minefield.Field.RevealMines` | main.c:192-197 | Every MINE cell becomes OPEN and every EMPTY cell keeps its state. Afterwards a mine is open iff the grid holds one. |
| `Minefield.Field.IsMineOpen` | main.c:251-256 | True iff some cell is both MINE and OPEN. |
| `Controller.MovedRow` | main.c:214-221 | The new row is the old row plus the key's step (-1 for `w`, +1 for `s`, 0 otherwise), clamped to `0..rows-1`, so it stays on the grid. |
| `Controller.MovedCol` | main.c:222-229 | The new column is the old column plus the key's step (-1 for `a`, +1 for `d`, 0 otherwise), clamped to `0..cols-1`, so it stays on the grid. |
| `Controller.OpenKey` | main.c:230-239 | The open key: mines are generated only when `first` holds, and then the cursor cell is EMPTY with no mined neighbour. A retry fault leaves an unsafe layout. The cell opens as `AfterOpen` says. A mine reveals every mine and ends the game, and otherwise the game ends iff `numClosed == numMines`. |
| `Controller.PerformAction` | main.c:211-249 | See the breakdown below the table. |
| `FieldSpec.WinMeansEverySafeCellOpen` | main.c:246-247 | With no mine open, the unopened cells are at least the mines, and `numClosed == numMines` iff every EMPTY cell is OPEN. |

What `Controller.PerformAction` states:

- Moves clamp the cursor and keep it on the grid.
- Flag, move and unknown keys leave the layout, the counters and `first` unchanged.
- Mines are generated only on the first open, which clears `first`.
- The first open lands on an EMPTY cell with no mined neighbour.
- A retry fault leaves a layout that is not safe at the cursor.
- The result is false iff the opened cell was a mine or `numClosed == numMines` afterwards.
- A mine hit reveals every mine.
- The counting invariant holds until a mine is open.
- A percentage over 50 is reported as a fault.

## Left out

- Terminal raw mode (`enableCanonical`, `disableCanonical`, the `atexit` hook) is left out: it is a terminal system-call concern.
- Rendering is left out, as presentation only: `printOpenTile`, `printField`, `printControls`, `printResult` and the cursor-repositioning escapes.
- `runGame` and `main` are left out: reading a key, `tolower`, and the loop that calls `PerformAction` until it returns false. `PerformAction` models one step of that loop, and its `first` argument is the loop's variable.
- `srand(time(NULL))` and `rand()` are not modelled. Each mine goes to a nondeterministically chosen EMPTY cell, so any layout the draws can produce is covered.
- `malloc`, `free` and `freeField` are not modelled. Storage is Dafny arrays allocated at resize, and allocation failure is not modelled.
- Minefield.Field.GenerateMines: the draws that land on a MINE and are redrawn are not modelled, only the cell the redrawing ends on.
- Minefield.Field.GenerateMines: `rows*cols*p` is computed exactly. The source computes it in size_t, which wraps once `rows*cols*p >= 2^64`, that is, for grids of at least 2^64/p cells.
- Minefield.Field.GenerateAtCursor: it takes a bound `retries` on the redraws after the first, and reports `RetryBoundReached` when the bound runs out. The source retries without end, and need not return at all (see `CentreOfThreeByThreeNeverSafe`).
- Minefield.Field.Resize: it requires `rows`, `cols` and `rows*cols` to fit a size_t. The source would wrap the product and allocate a short array.
- Controller.PerformAction: it requires at least one row and one column and the cursor on the grid. On an empty grid the source's `rows - 1` wraps to 2^64-1, so the cursor could leave the grid.
- Controller.PerformAction: the model returns a fault where the C program calls `exit(1)` (a percentage over 50) or would keep retrying (the retry bound). The program then stops, or never returns.
- Minefield.Field.CellAt: the out-of-bounds exit is not modelled. It is a precondition instead.
- Minefield.Field.StateAt: the out-of-bounds exit is not modelled. It is a precondition instead.

# Minesweeper field, modelled in Dafny

This project models the game engine of a Minesweeper clone: the grid container
(`mod/grid.py`) and the minefield (`field.py`). It covers mine placement on the
first click, the adjacency counts, flagging, revealing, the recursive
"forest fire" that opens a region of cells with no adjacent mine, and the win
and loss outcomes of a click.

- `grid.dfy`, module `Grids`, models the grid:
  - coordinates `(x, y)`, with x the column and y the row;
  - the row-major enumeration of `__iter__` (`Coords`);
  - the eight-way neighbour cascade of `iterneighbours` (`Neighbours`), in the source's yield order;
  - class `Grid`, whose cells live in an `array2` that `Set` and `SetAll` update in place.
- `board.dfy`, module `Boards`, treats the field as a value:
  - a cell is the source's 4-tuple `(mined, uncovered, adjacent, flagged)`;
  - a board maps every in-bounds coordinate to its cell;
  - it defines what the operations keep true (`WellFormed`, `Counted`, no `Open` cell), what they change (`Revealing`, `Toggled`, `Fills`), and the lemmas relating them.
- `field.dfy`, module `Minefield`, holds class `Field`:
  - its fields are the counters `flagged` and `correctSquares`, the losing `target`, the `initialized` flag, and a `Grid` of cells;
  - `Initialize`, `ForestFires` and `Click` are imperative methods proved against the board-level predicates;
  - two client methods show what the contracts give a caller.

`Field.Valid()` is the invariant between clicks:
- no uncovered cell is mined or flagged;
- `correctSquares` is the number of flagged mines;
- `flagged` starts at the mine count;
- once initialized, there are exactly `minesNo` mines and every safe cell holds the number of its mined neighbours;
- no uncovered safe cell with a zero count has a covered neighbour, so every flood fill has finished.

Every click keeps `Valid()`. The first click places all mines outside the
clicked cell's two-ring, which is the clicked cell, its neighbours and theirs.
That ring is exactly the in-bounds cells within Chebyshev distance 2. So the
first reveal never loses, and it opens the clicked cell's whole neighbourhood
(`OpenRound`). A win is declared exactly when every mine is flagged
(`AllMinesFlagged`). On a valid board, every cell reachable from an uncovered
cell through zero-count cells is uncovered (`ZeroRegionUncovered`).

Where the code and its comments disagree, the model follows the code:
- The comment above `correctsquares` (field.py:55-57) says uncovered safe cells also add to the counter. The code changes it only when a mined cell is flagged or unflagged, so `correctSquares` is the number of flagged mines.
- The game object's `lost()` and `won()` callbacks become the `State` that `Click` returns.

## Model

| member | source | states |
|---|---|---|
| Grids.Grid.constructor | mod/grid.py:4-5 | the grid has `width` columns and `height` rows, and every in-bounds cell holds `default` |
| Grids.Grid.ColsBound | mod/grid.py:38-40 | the number of columns: every enumerated coordinate has a smaller x, and the last column is enumerated when there is a row; the constructor sets it to `width` |
| Grids.Grid.RowsBound | mod/grid.py:42-44 | the number of rows: every enumerated coordinate has a smaller y, and the last row is enumerated when there is a column; the constructor sets it to `height` |
| Grids.Grid.CellNo | mod/grid.py:7-9 | the cell count equals the number of coordinates `__iter__` enumerates |
| Grids.CoordSetCard | mod/grid.py:7-9 | a cols x rows grid has exactly cols * rows distinct coordinates |
| Grids.Row | mod/grid.py:19-20 | the inner loop yields (0, y) .. (n-1, y): n coordinates, all of row y, in increasing x |
| Grids.Coords | mod/grid.py:17-20 | `__iter__` yields cols * rows coordinates, exactly the in-bounds ones, in strictly increasing row-major order |
| Grids.CoordsDistinct | mod/grid.py:17-20 | the enumeration never yields a coordinate twice |
| Grids.Grid.Get | mod/grid.py:22-26 | reads the value stored at an in-bounds coordinate |
| Grids.Grid.Set | mod/grid.py:28-31 | overwrites one cell's value; every other cell is unchanged |
| Grids.Grid.SetAll | mod/grid.py:33-36 | after visiting every cell in `__iter__` order, every cell holds the value |
| Grids.YieldSound | mod/grid.py:46-65 | every yielded coordinate is at Chebyshev distance 1, in bounds when the centre is |
| Grids.YieldComplete | mod/grid.py:46-65 | every in-bounds coordinate at distance 1 from an in-bounds centre is yielded |
| Grids.YieldOrdered | mod/grid.py:46-65 | the yields follow the fixed direction order N, S, W, NW, SW, E, NE, SE, so none repeats |
| Grids.YieldAll | mod/grid.py:46-65 | the whole cascade yields each in-bounds neighbour exactly once and nothing else |
| Grids.Neighbours | mod/grid.py:46-65 | for an in-bounds cell: exactly its in-bounds 8-neighbours, without repetition, at most 8 |
| Grids.CornerNeighbours | mod/grid.py:46-65 | a corner of a grid at least 2 x 2 has exactly three neighbours |
| Boards.CountIn | field.py:192-196 | the count of mined neighbours never exceeds the number of neighbours |
| Boards.CountInZero | field.py:192-196 | the count is zero exactly when no listed cell is mined |
| Boards.CountInCard | field.py:192-196 | on a repetition-free list, the count is the number of listed cells that are mined |
| Boards.CountedMeaning | field.py:187-198 | on a counted board, a safe cell's number is how many of its neighbours are mined |
| Boards.PickOutside | field.py:174-181 | while fewer mines are placed than there are eligible cells, an eligible unmined cell exists, so the retry loop can exit |
| Boards.LayMine | field.py:186 | writing (1, 0, 0, 0) on a cell adds exactly that cell to the placed mines |
| Boards.CountingStep | field.py:187-198 | writing a safe cell's count adds it to the cells already counted |
| Boards.CountingSkip | field.py:188-190 | a mined cell is skipped and keeps (1, 0, 0, 0) |
| Boards.CountingDealt | field.py:187-198 | once every cell is visited, each mine is (1, 0, 0, 0) and each safe cell is covered, unflagged and holds its mined-neighbour count |
| Boards.DealtSettled | field.py:172-198 | a freshly dealt board is well formed and counted, with nothing uncovered or flagged and no open cell |
| Boards.ExemptCount | field.py:224-234 | the first-clicked cell is safe, covered, unflagged and has count 0 when the mines avoid its two-ring |
| Boards.TwoRingIsReach | field.py:226-232 | the cell, its neighbours and theirs are exactly the in-bounds cells within distance 2 |
| Boards.TwoRingCard | field.py:226-232 | the exemption zone has at most 25 cells |
| Boards.RevealOne | field.py:212 | uncovering and unflagging a covered cell is a reveal that removes exactly that cell from the covered set, so the number of covered cells drops by one |
| Boards.RevealKeeps | field.py:204-215 | a reveal that uncovers no mine keeps the mines, the flagged mines, the counts and well-formedness |
| Boards.ZeroCountNoMine | field.py:213-215 | a neighbour of a safe zero-count cell is not a mine, so the fill never uncovers one |
| Boards.FillsStep | field.py:212-213 | uncovering a numbered cell leaves no new zero-count cell to fill |
| Boards.FillsJoin | field.py:212-215 | uncovering a zero-count cell and then filling from it leaves every newly uncovered zero-count cell with all neighbours uncovered |
| Boards.FillsTransitive | field.py:204-215 | two successive fills compose into one |
| Boards.Settle | field.py:267-270 | a fill that starts from a board with no open cell leaves none |
| Boards.ZeroRegionUncovered | field.py:200-215 | with no open cell, everything reachable from an uncovered cell through safe zero-count cells is uncovered |
| Boards.FlagToggle | field.py:245-257 | a flag toggle keeps the mines, the counts and well-formedness, and moves the flagged-mine count by one exactly when the cell is mined |
| Boards.ToggleKeepsOpen | field.py:245-257 | a flag toggle changes no open cell |
| Boards.ToggledTwice | field.py:245-257 | toggling a flag twice restores the board |
| Boards.AllMinesFlagged | field.py:272-273 | `correctsquares == minesno` holds exactly when every mine is flagged |
| Minefield.ExemptZone | field.py:226-232 | the exemption list is the in-bounds two-ring of the clicked cell |
| Minefield.Field.constructor | field.py:34-65 | a new field: all cells (0, 0, 0, 0), `flagged` = mines, `correctsquares` = 0, no target, not initialized, and valid |
| Minefield.Field.CountMinedNeighbours | field.py:192-196 | the inner loop counts exactly the mined neighbours of the tile |
| Minefield.Field.PlaceMines | field.py:174-186 | places `minesno` distinct mines, all outside the exemption list, on a blank board |
| Minefield.Field.CountCell | field.py:187-198 | one pass of the counting loop: a safe tile gets its count and is unflagged, a mine is left alone |
| Minefield.Field.CountAdjacent | field.py:187-198 | after the loop over `__iter__`, the mines are unchanged and every safe cell holds its count |
| Minefield.Field.Initialize | field.py:172-198 | exactly `minesno` mines, none in the exemption list, and a dealt board |
| Minefield.Field.ForestFires | field.py:200-215 | only uncovers and unflags covered cells; every neighbour of `pos` ends uncovered, and so does every newly uncovered zero-count cell's neighbourhood; keeps the field consistent |
| Minefield.Field.Uncover | field.py:212 | uncovering and unflagging one covered safe cell changes that cell alone, drops the covered count by one, keeps the mines and keeps the field consistent |
| Minefield.Field.BurnNeighbour | field.py:206-215 | one loop pass: the neighbour ends uncovered; an already uncovered neighbour leaves the board unchanged, a covered one with a non-zero count is the only cell that changes, and the fill recurses from one whose count is 0 |
| Minefield.Field.FirstClick | field.py:224-234 | the first click places `minesno` mines away from the clicked cell's two-ring, leaves everything covered, and gives the clicked cell count 0 |
| Minefield.Field.ToggleFlag | field.py:245-257 | toggles the flag; `flagged` moves against the toggle; `correctsquares` moves with it only for a mine; the mines stay |
| Minefield.Field.Reveal | field.py:259-270 | a mine becomes the target and the board is unchanged; a safe cell with a non-zero count is the only cell uncovered; a safe cell with count 0 is uncovered and filled from |
| Minefield.Field.ClickPlaced | field.py:236-273 | on an initialized field: ignores uncovered cells and reveal-clicks on flags, flags, loses or reveals (a numbered safe cell alone, a zero cell with its region), then reports a win iff `correctsquares == minesno` |
| Minefield.Field.OpeningClick | field.py:224-273 | the first click inside the grid: mines placed away from the cell, then the cell alone is flagged or revealed with count 0, the counters start from `minesno` and 0, a first flag leaves every other cell covered and unflagged, and a first reveal leaves no cell flagged |
| Minefield.Field.Click | field.py:217-273 | the whole click: outside clicks change nothing, the first click places mines away from the cell, a revealed numbered safe cell is the only cell that changes, every case keeps the field valid, and a win means every mine is flagged |
| Minefield.FlagTwice | field.py:245-257 | two flagging clicks on a covered cell restore the board and both counters |
| Minefield.OpenRound | field.py:217-273 | a new round's first reveal never loses and uncovers the clicked cell and all its neighbours |
| Minefield.SourceGuardAdmitsOutside | field.py:221-222 | the written bounds test admits (rows, cols), which is never in bounds |
| Minefield.SourceGuardRejectsInside | field.py:221-222 | on a grid more than one column wider than tall, the written bounds test rejects an in-bounds cell |
| Minefield.SettingsAdmitExemptOverflow | game.py:164-165 | the settings limit accepts 1 mine on a 2 x 1 grid, where the first click leaves no eligible cell |
| Minefield.SettingsAdmitOldGrid | game.py:164-165 | the settings limit uses the shown grid's size, accepting 50 mines for a new 3 x 3 grid |
| Minefield.SafeMineCountPlaces | game.py:164-165 | with 25 cells to spare, every first click leaves enough eligible cells for all mines |

## Left out

- Pixel geometry and display are not modelled: `pixel2grid`, `grid2pixel`, `adjust`, drawing, fonts and `Grid.__str__`. `Click` takes grid coordinates.
- Calls into the game object are not modelled. `lost()` and `won()` are the returned `State`. The game's refusal of clicks after a loss or win is the caller's business.
- `randrange` is not modelled. `PlaceMines` may pick any eligible unmined cell, so the random distribution is not represented.
- The `while True` retry loop is not modelled. It is replaced by the requirement that enough eligible cells exist; without it the source never terminates (see Findings).
- Grid.Cols: the source reads the length of the first row and fails on a grid with no rows. The model returns the width given to the constructor. `Field` requires a positive width and height.
- Grids.Grid.Get and Grids.Grid.Set require an in-bounds coordinate. Python's wrap-around for negative indices and its `IndexError` past the end are not modelled.
- Minefield.Field.ClickPlaced omits the `data is None` test (field.py:237-238). Cells always hold a tuple, so the test never fires.
- Minefield.Field.ForestFires does not state that it uncovers nothing outside the zero-count region of `pos` and that region's border. It states that it only reveals covered cells, never mines, and leaves every newly uncovered zero-count cell with all its neighbours uncovered.
- Minefield.Field.ForestFires: the test `tile in _from` is kept but skips nothing the uncovered test does not already skip. Every cell in `_from` is uncovered, which the contract states. `_from` is passed in and returned, which matches the source's shared, mutated list.
- Minefield.Field.ForestFires always terminates. The source recurses once for each newly uncovered zero-count cell, so on a large, sparse grid the chain of calls can pass Python's default limit of 1000 frames and raise `RecursionError`; the model has no call-depth limit.
- Minefield.Field.constructor takes the mine count as a `nat`. The settings entry reads any integer (settingswin.py:66-68) and game.py:164 bounds it only from above, so a negative count can reach `Field.__init__`: `range(minesno)` then places no mine and `correctsquares == minesno` never holds. That case is not modelled.
- Minefield.Field.Click requires on a first click that at least `minesNo` cells lie outside the exemption zone. The source hangs otherwise (see Findings).
- Minefield.Field.FirstClick sets `initialized` before placing the mines. The source sets it after, and `initialize` never reads the flag.
- The split of `initialize`, `forestfires` and `click` into `PlaceMines`, `CountCell`, `CountAdjacent`, `BurnNeighbour`, `Uncover`, `FirstClick`, `OpeningClick`, `ToggleFlag`, `Reveal` and `ClickPlaced` is a decomposition for the proofs; the statements and their order are the source's.

## Findings

| source | as written | input that shows it | evidently intended | confidence | as-written member | corrected member |
|---|---|---|---|---|---|---|
| field.py:221 | the bounds test compares x with the row count and y with the column count, and uses `>` instead of `>=` | any grid and the click (rows, cols): it passes the test, and `get` then indexes past the grid; on a 5 x 2 grid the in-bounds cell (4, 0) is rejected | a click is handled exactly when 0 <= x < cols and 0 <= y < rows | high; not executed | Minefield.SourceGuardAdmitsOutside | Minefield.Field.Click |
| game.py:164 | a new mine count is refused only when it reaches the cell count of the grid currently shown | 1 mine on a 2 x 1 grid: the first click exempts both cells, so the placement loop never finds a cell | every accepted setting lets the first click place all its mines | high; not executed | Minefield.SettingsAdmitExemptOverflow | Minefield.SafeMineCountPlaces |
| game.py:164 | the limit is the shown grid's cell count, not the new grid's | a 9 x 9 grid shown, new settings 3 x 3 with 50 mines: accepted, and placement needs 50 cells out of 9 | the limit uses the new width and height | high; not executed | Minefield.SettingsAdmitOldGrid | Minefield.SafeMineCountPlaces |

/** The game logic of the minefield (field.py): mine placement on the first
    click, flagging, revealing, the recursive flood fill of zero-count
    regions, and the win and loss outcomes. Clicks arrive in grid
    coordinates; the outcome is returned instead of being signalled to the
    game object. */
module Minefield {
  import opened Grids
  import opened Boards

  /** The state of a round as far as a click decides it. */
  datatype State = Playing | Lost | Won

  datatype Option<T> = None | Some(value: T)

  /** The exemption zone of the first click: the clicked cell, its
      neighbours, and their neighbours, which is every in-bounds cell within
      distance 2 of it. */
  method ExemptZone(cell: Coord, cols: nat, rows: nat) returns (zone: set<Coord>)
    requires InBounds(cell, cols, rows)
    ensures zone == TwoRing(cell, cols, rows)
  {
    var ncells := Neighbours(cell, cols, rows);
    zone := {cell} + Elems(ncells);
    for i := 0 to |ncells|
      invariant zone == {cell} + Elems(ncells) + Reach(ncells, i, cols, rows)
    {
      zone := zone + Elems(Neighbours(ncells[i], cols, rows));
    }
    TwoRingIsReach(cell, cols, rows);
  }

  /** The bounds test of `click` as it is written: it compares x with the
      number of rows and y with the number of columns, and uses `>` where
      `>=` is needed. */
  predicate SourceGuardAdmits(cell: Coord, cols: int, rows: int) {
    !(cell.x < 0 || cell.x > rows || cell.y < 0 || cell.y > cols)
  }

  /** The written test lets through a cell outside every grid: (rows, cols)
      is never in bounds, yet it passes, and `get` then indexes past the
      end of a row or of the row list. */
  lemma SourceGuardAdmitsOutside(cols: nat, rows: nat)
    ensures SourceGuardAdmits(Coord(rows, cols), cols, rows)
    ensures !InBounds(Coord(rows, cols), cols, rows)
  {
  }

  /** On a grid more than one column wider than it is tall, the written test
      rejects a cell that is in bounds: the last cell of the first row. */
  lemma SourceGuardRejectsInside(cols: nat, rows: nat)
    requires rows > 0 && cols > rows + 1
    ensures InBounds(Coord(cols - 1, 0), cols, rows)
    ensures !SourceGuardAdmits(Coord(cols - 1, 0), cols, rows)
  {
  }

  /** The mine limit of the settings dialog (game.py) as written: a new mine
      count is refused only when it reaches the number of cells of the grid
      currently shown. */
  predicate SettingsAccept(mines: int, shownCellNo: int) {
    !(mines >= shownCellNo)
  }

  /** The written limit ignores the cells the first click exempts: on a
      2 x 1 grid one mine is accepted, yet a first click exempts both cells,
      so the placement loop has no cell to pick and never ends. */
  lemma SettingsAdmitExemptOverflow()
    ensures SettingsAccept(1, 2 * 1)
    ensures CoordSet(2, 1) - TwoRing(Coord(0, 0), 2, 1) == {}
  {
    forall q | q in CoordSet(2, 1)
      ensures q in TwoRing(Coord(0, 0), 2, 1)
    {
      assert Chebyshev(Coord(0, 0), q) <= 1;
    }
  }

  /** The written limit measures the old grid: with a 9 x 9 grid shown,
      50 mines on a new 3 x 3 grid are accepted, more than it has cells. */
  lemma SettingsAdmitOldGrid()
    ensures SettingsAccept(50, 9 * 9)
    ensures |CoordSet(3, 3)| < 50
  {
    CoordSetCard(3, 3);
  }

  /** The limit the dialog needs, on the new grid's dimensions: at least 25
      cells to spare. */
  predicate SafeMineCount(mines: int, cols: nat, rows: nat) {
    mines + 25 <= cols * rows
  }

  /** Under that limit every first click leaves enough cells outside its
      exemption zone for all the mines, which is what `Click` asks of a
      first click. */
  lemma SafeMineCountPlaces(mines: nat, cols: nat, rows: nat, cell: Coord)
    requires SafeMineCount(mines, cols, rows)
    ensures mines <= |CoordSet(cols, rows) - TwoRing(cell, cols, rows)|
  {
    CoordSetCard(cols, rows);
    TwoRingCard(cell, cols, rows);
    assert TwoRing(cell, cols, rows) <= CoordSet(cols, rows);
  }

  class Field {
    const grid: Grid<Cell>
    /** The number of mines of the round. */
    const minesNo: nat
    /** The number of flagged mines (the only changes to it are in the
        flagging branch of `Click`, and only for mined cells). */
    var correctSquares: int
    /** The on-screen mine counter: mines minus flags placed; may go negative. */
    var flagged: int
    /** The mine whose reveal lost the round. */
    var target: Option<Coord>
    /** Whether the mines have been placed. */
    var initialized: bool

    ghost function Cells(): Board
      reads grid.cells
    {
      grid.Contents()
    }

    /** What every operation keeps true, except that a flood fill in progress
        may leave open cells behind it. */
    ghost predicate Consistent()
      reads this, grid.cells
    {
      var b, cols, rows := Cells(), grid.Cols(), grid.Rows();
      cols > 0 && rows > 0 && WellFormed(b) &&
      correctSquares == |FlaggedMines(b)| &&
      (target.Some? ==> target.value in Mines(b)) &&
      (!initialized ==> flagged == minesNo && forall q | q in b :: b[q] == Blank) &&
      (initialized ==> |Mines(b)| == minesNo && Counted(b, cols, rows))
    }

    /** The invariant between clicks: consistent, and no uncovered safe cell
        without adjacent mines has a covered neighbour. */
    ghost predicate Valid()
      reads this, grid.cells
    {
      Consistent() && Open(Cells(), grid.Cols(), grid.Rows()) == {}
    }

    /** A fresh round: every cell is (0, 0, 0, 0) and no mine is placed yet. */
    constructor (width: nat, height: nat, mines: nat)
      requires width > 0 && height > 0
      ensures Valid() && fresh(grid.cells)
      ensures grid.Cols() == width && grid.Rows() == height
      ensures minesNo == mines && flagged == mines && correctSquares == 0
      ensures target == None && !initialized
    {
      grid := new Grid(width, height, Blank);
      minesNo := mines;
      correctSquares := 0;
      flagged := mines;
      target := None;
      initialized := false;
      new;
      assert FlaggedMines(Cells()) == {};
      assert Open(Cells(), width, height) == {};
    }

    /** The adjacency loop of `initialize` for one cell: how many of its
        neighbours are mined. */
    method CountMinedNeighbours(tile: Coord) returns (count: nat)
      requires grid.Contains(tile)
      ensures count == CountIn(Neighbours(tile, grid.Cols(), grid.Rows()), Mines(Cells()))
    {
      var nbs := Neighbours(tile, grid.Cols(), grid.Rows());
      ghost var mines := Mines(Cells());
      count := 0;
      for j := 0 to |nbs|
        invariant count == CountIn(nbs[..j], mines)
      {
        assert nbs[j] in nbs;
        var ctile := grid.Get(nbs[j]);
        if ctile.mined {
          count := count + 1;
        }
        CountInStep(nbs, j, mines);
      }
      assert nbs[..|nbs|] == nbs;
    }

    /** The placement loop of `initialize`: puts `minesNo` mines on cells
        outside `exempt`. The source draws random cells until one is outside
        `exempt` and unmined; any such cell may be chosen here. */
    method PlaceMines(exempt: set<Coord>) returns (ghost mines: set<Coord>)
      requires forall q | q in Cells() :: Cells()[q] == Blank
      requires minesNo <= |CoordSet(grid.Cols(), grid.Rows()) - exempt|
      modifies grid.cells
      ensures Laid(Cells(), mines)
      ensures mines <= CoordSet(grid.Cols(), grid.Rows()) - exempt && |mines| == minesNo
    {
      var cols, rows := grid.Cols(), grid.Rows();
      mines := {};
      for i := 0 to minesNo
        invariant Laid(Cells(), mines)
        invariant mines <= CoordSet(cols, rows) - exempt && |mines| == i
      {
        PickOutside(mines, CoordSet(cols, rows) - exempt);
        ghost var c :| c in CoordSet(cols, rows) - exempt && c !in mines;
        assert grid.Contains(c) && !grid.Get(c).mined;
        var x: int, y: int :| 0 <= x < cols && 0 <= y < rows &&
          Coord(x, y) !in exempt && !grid.Get(Coord(x, y)).mined;
        assert Cells()[Coord(x, y)] == grid.Get(Coord(x, y));
        assert Coord(x, y) !in mines;
        LayMine(Cells(), mines, Coord(x, y));
        grid.Set(Coord(x, y), MineCell);
        mines := mines + {Coord(x, y)};
      }
    }

    /** One pass of the adjacency loop of `initialize`: a safe tile gets
        the number of its mined neighbours, a mined one is left alone. */
    method CountCell(tile: Coord, ghost mines: set<Coord>, ghost done: set<Coord>)
      requires grid.Contains(tile)
      requires Counting(Cells(), mines, done, grid.Cols(), grid.Rows()) && mines <= Cells().Keys
      modifies grid.cells
      ensures Counting(Cells(), mines, done + {tile}, grid.Cols(), grid.Rows())
    {
      var cols, rows := grid.Cols(), grid.Rows();
      var data := grid.Get(tile);
      ghost var b := Cells();
      if !data.mined {
        CountingMines(b, mines, done, cols, rows);
        var count := CountMinedNeighbours(tile);
        CountingStep(b, mines, done, tile, cols, rows);
        assert !data.uncovered;
        grid.Set(tile, Cell(data.mined, data.uncovered, count, false));
        assert Cells() == b[tile := Cell(false, false, CountIn(Neighbours(tile, cols, rows), mines), false)];
      } else {
        CountingSkip(b, mines, done, tile, cols, rows);
      }
    }

    /** The adjacency loop of `initialize`: visits every cell in `__iter__`
        order and writes into each safe one the number of its mined
        neighbours. */
    method CountAdjacent(ghost mines: set<Coord>)
      requires Laid(Cells(), mines) && mines <= Cells().Keys
      modifies grid.cells
      ensures Dealt(Cells(), grid.Cols(), grid.Rows()) && Mines(Cells()) == mines
    {
      var cols, rows := grid.Cols(), grid.Rows();
      var tiles := Coords(cols, rows);
      for k := 0 to |tiles|
        invariant Counting(Cells(), mines, Elems(tiles[..k]), cols, rows)
      {
        assert tiles[k] in tiles;
        CountCell(tiles[k], mines, Elems(tiles[..k]));
        ElemsStep(tiles, k);
      }
      assert tiles[..|tiles|] == tiles;
      assert Elems(tiles) == Cells().Keys;
      CountingDealt(Cells(), mines, cols, rows);
      CountingMines(Cells(), mines, Elems(tiles), cols, rows);
    }

    /** Places `minesNo` mines on cells outside `exempt`, then writes the
        number of mined neighbours into every safe cell. */
    method Initialize(exempt: set<Coord>)
      requires forall q | q in Cells() :: Cells()[q] == Blank
      requires minesNo <= |CoordSet(grid.Cols(), grid.Rows()) - exempt|
      modifies grid.cells
      ensures |Mines(Cells())| == minesNo
      ensures Mines(Cells()) !! exempt
      ensures Dealt(Cells(), grid.Cols(), grid.Rows())
    {
      ghost var mines := PlaceMines(exempt);
      CountAdjacent(mines);
    }

    /** The flood fill from an uncovered cell with no adjacent mine: uncovers
        (and unflags) every covered neighbour and recurses into those that
        have no adjacent mine either. `from` is the source's `_from` list,
        threaded through the recursion; every cell in it is uncovered, so its
        membership test never skips anything the uncovered test has not. */
    method ForestFires(pos: Coord, from: seq<Coord>) returns (visited: seq<Coord>)
      requires Consistent() && initialized
      requires pos in Cells() && Cells()[pos].uncovered && Cells()[pos].adjacent == 0
      requires Uncovered(Cells(), Elems(from))
      modifies grid.cells
      decreases |Covered(Cells())|, 1
      ensures Consistent()
      ensures Revealing(old(Cells()), Cells())
      ensures Fills(old(Cells()), Cells(), grid.Cols(), grid.Rows())
      ensures Closed(Cells(), pos, grid.Cols(), grid.Rows())
      ensures Uncovered(Cells(), Elems(visited))
    {
      var cols, rows := grid.Cols(), grid.Rows();
      ghost var b0 := Cells();
      FillsNothing(b0, cols, rows);
      visited := from;
      var nbs := Neighbours(pos, cols, rows);
      for i := 0 to |nbs|
        invariant Consistent()
        invariant Revealing(b0, Cells()) && Fills(b0, Cells(), cols, rows)
        invariant Uncovered(Cells(), Elems(nbs[..i])) && Uncovered(Cells(), Elems(visited))
      {
        assert nbs[i] in nbs;
        ghost var b1 := Cells();
        RevealingCovered(b0, b1);
        visited := BurnNeighbour(pos, nbs[i], visited);
        RevealingTransitive(b0, b1, Cells());
        FillsTransitive(b0, b1, Cells(), cols, rows);
        UncoveredStays(b1, Cells(), Elems(nbs[..i]));
        ElemsStep(nbs, i);
      }
      assert nbs[..|nbs|] == nbs;
    }

    /** One pass of the loop of `forestfires`, for the neighbour `tile` of
        `pos`: a covered tile outside `from` is uncovered and unflagged, and
        when it has no adjacent mine the fill recurses from it with `pos`
        appended to `from`. */
    method BurnNeighbour(pos: Coord, tile: Coord, from: seq<Coord>) returns (visited: seq<Coord>)
      requires Consistent() && initialized
      requires pos in Cells() && Cells()[pos].uncovered && Cells()[pos].adjacent == 0
      requires tile in Neighbours(pos, grid.Cols(), grid.Rows())
      requires Uncovered(Cells(), Elems(from))
      modifies grid.cells
      decreases |Covered(Cells())|, 0
      ensures Consistent()
      ensures Revealing(old(Cells()), Cells())
      ensures Fills(old(Cells()), Cells(), grid.Cols(), grid.Rows())
      ensures tile in Cells() && Cells()[tile].uncovered
      ensures Uncovered(Cells(), Elems(visited))
      // an uncovered tile is left alone; a numbered one is the only cell uncovered
      ensures old(Cells())[tile].uncovered ==> Cells() == old(Cells())
      ensures !old(Cells())[tile].uncovered && old(Cells())[tile].adjacent != 0 ==>
        Cells() == Revealed(old(Cells()), tile)
    {
      var cols, rows := grid.Cols(), grid.Rows();
      ghost var b1 := Cells();
      FillsNothing(b1, cols, rows);
      visited := from;
      var data := grid.Get(tile);
      if !data.uncovered && tile !in visited {
        ZeroCountNoMine(b1, pos, tile, cols, rows);
        Uncover(tile, data);
        if data.adjacent == 0 {
          assert Elems(visited + [pos]) == Elems(visited) + {pos};
          visited := visited + [pos];
          ghost var b2 := Cells();
          visited := ForestFires(tile, visited);
          RevealingTransitive(b1, b2, Cells());
          FillsJoin(b1, b1, Cells(), tile, cols, rows);
        } else {
          FillsStep(b1, b1, tile, cols, rows);
        }
      } else if tile in visited {
        assert tile in Elems(visited);
      }
    }

    /** Uncovers and unflags one covered safe cell, whose contents the
        caller has read into `data`. */
    method Uncover(tile: Coord, data: Cell)
      requires Consistent() && initialized && tile in Cells() && Cells()[tile] == data
      requires !data.uncovered && !data.mined
      modifies grid.cells
      ensures Consistent()
      ensures Cells() == Revealed(old(Cells()), tile)
      ensures Revealing(old(Cells()), Cells())
      ensures |Covered(Cells())| == |Covered(old(Cells()))| - 1
      ensures Mines(Cells()) == Mines(old(Cells()))
    {
      ghost var b := Cells();
      grid.Set(tile, Cell(data.mined, true, data.adjacent, false));
      assert Cells() == Revealed(b, tile);
      RevealOne(b, tile);
      RevealKeeps(b, Cells(), grid.Cols(), grid.Rows());
    }

    /** The first click inside the grid: places the mines away from the
        clicked cell, its neighbours and theirs, and marks the field
        initialized. */
    method FirstClick(cell: Coord)
      requires Valid() && !initialized && grid.Contains(cell)
      requires minesNo <= |CoordSet(grid.Cols(), grid.Rows()) - TwoRing(cell, grid.Cols(), grid.Rows())|
      modifies this`initialized, grid.cells
      ensures Valid() && initialized
      ensures |Mines(Cells())| == minesNo
      ensures Mines(Cells()) !! TwoRing(cell, grid.Cols(), grid.Rows())
      ensures forall q | q in Cells() :: !Cells()[q].uncovered && !Cells()[q].flagged
      ensures Cells()[cell] == Cell(false, false, 0, false)
    {
      var cols, rows := grid.Cols(), grid.Rows();
      assert Mines(Cells()) == {} && FlaggedMines(Cells()) == {};
      var exempt := ExemptZone(cell, cols, rows);
      initialized := true;
      Initialize(exempt);
      DealtSettled(Cells(), cols, rows);
      ExemptCount(Cells(), cell, cols, rows);
    }

    /** The flagging branch of a click on a covered cell: toggles its flag,
        moves the mine counter against the toggle and the count of flagged
        mines with it when the cell is mined. */
    method ToggleFlag(cell: Coord)
      requires Valid() && initialized && grid.Contains(cell) && !Cells()[cell].uncovered
      modifies this`flagged, this`correctSquares, grid.cells
      ensures Valid()
      ensures Cells() == Toggled(old(Cells()), cell)
      ensures Mines(Cells()) == Mines(old(Cells()))
      ensures flagged == old(flagged) + (if old(Cells())[cell].flagged then 1 else -1)
      ensures correctSquares == old(correctSquares) +
        (if !old(Cells())[cell].mined then 0 else if old(Cells())[cell].flagged then -1 else 1)
    {
      var cols, rows := grid.Cols(), grid.Rows();
      var data := grid.Get(cell);
      ghost var b0 := Cells();
      var mark: bool;
      if !data.flagged {
        mark := true;
        flagged := flagged - 1;
        if data.mined {
          correctSquares := correctSquares + 1;
        }
      } else {
        mark := false;
        flagged := flagged + 1;
        if data.mined {
          correctSquares := correctSquares - 1;
        }
      }
      FlagToggle(b0, cell, cols, rows);
      ToggleKeepsOpen(b0, cell, cols, rows);
      grid.Set(cell, Cell(data.mined, data.uncovered, data.adjacent, mark));
      assert Cells() == Toggled(b0, cell);
    }

    /** The revealing branch of a click on a covered, unflagged cell: a mine
        is recorded as the target and loses; a safe cell is uncovered, and
        when it has no adjacent mine the flood fill runs from it. */
    method Reveal(cell: Coord) returns (lost: bool)
      requires Valid() && initialized && grid.Contains(cell)
      requires !Cells()[cell].uncovered && !Cells()[cell].flagged
      modifies this`target, grid.cells
      ensures Valid()
      ensures lost == old(Cells())[cell].mined
      ensures lost ==> target == Some(cell) && Cells() == old(Cells())
      ensures !lost ==> target == old(target)
      ensures !lost ==> Revealing(old(Cells()), Cells()) && Cells()[cell].uncovered
      ensures Mines(Cells()) == Mines(old(Cells()))
      ensures Cells()[cell].adjacent == old(Cells())[cell].adjacent && !Cells()[cell].flagged
      ensures !lost && old(Cells())[cell].adjacent == 0 ==> Closed(Cells(), cell, grid.Cols(), grid.Rows())
      ensures !lost && old(Cells())[cell].adjacent != 0 ==> Cells() == Revealed(old(Cells()), cell)
    {
      var cols, rows := grid.Cols(), grid.Rows();
      var data := grid.Get(cell);
      if data.mined {
        target := Some(cell);
        return true;
      }
      ghost var b0 := Cells();
      Uncover(cell, data);
      FillsNothing(b0, cols, rows);
      if data.adjacent == 0 {
        ghost var b1 := Cells();
        var _ := ForestFires(cell, []);
        RevealingTransitive(b0, b1, Cells());
        FillsJoin(b0, b0, Cells(), cell, cols, rows);
      } else {
        FillsStep(b0, b0, cell, cols, rows);
      }
      Settle(b0, Cells(), cols, rows);
      RevealKeeps(b0, Cells(), cols, rows);
      return false;
    }

    /** A click on a cell of a field whose mines are placed. */
    method ClickPlaced(cell: Coord, flagging: bool) returns (state: State)
      requires Valid() && initialized && grid.Contains(cell)
      modifies this`flagged, this`correctSquares, this`target, grid.cells
      ensures Valid()
      // the mines stay where they are
      ensures Mines(Cells()) == Mines(old(Cells()))
      // an uncovered cell, or a flagged cell clicked to reveal, is ignored
      ensures old(Cells())[cell].uncovered || (!flagging && old(Cells())[cell].flagged) ==>
        state == Playing && Cells() == old(Cells()) &&
        flagged == old(flagged) && correctSquares == old(correctSquares) && target == old(target)
      // flagging toggles the flag and moves both counters
      ensures flagging && !old(Cells())[cell].uncovered ==>
        Cells() == Toggled(old(Cells()), cell) &&
        flagged == old(flagged) + (if old(Cells())[cell].flagged then 1 else -1) &&
        correctSquares == old(correctSquares) +
          (if !old(Cells())[cell].mined then 0 else if old(Cells())[cell].flagged then -1 else 1) &&
        target == old(target) &&
        state == (if correctSquares == minesNo then Won else Playing)
      // revealing a mine loses the round and changes no cell
      ensures !flagging && !old(Cells())[cell].uncovered && !old(Cells())[cell].flagged &&
              old(Cells())[cell].mined ==>
        state == Lost && target == Some(cell) && Cells() == old(Cells()) &&
        flagged == old(flagged) && correctSquares == old(correctSquares)
      // revealing a safe cell uncovers it, and its whole region when its count is 0
      ensures !flagging && !old(Cells())[cell].uncovered && !old(Cells())[cell].flagged &&
              !old(Cells())[cell].mined ==>
        Revealing(old(Cells()), Cells()) && Cells()[cell].uncovered &&
        Cells()[cell].adjacent == old(Cells())[cell].adjacent &&
        (old(Cells())[cell].adjacent == 0 ==> Closed(Cells(), cell, grid.Cols(), grid.Rows())) &&
        (old(Cells())[cell].adjacent != 0 ==> Cells() == Revealed(old(Cells()), cell)) &&
        flagged == old(flagged) && correctSquares == old(correctSquares) && target == old(target) &&
        state == (if correctSquares == minesNo then Won else Playing)
      // a win means every mine is flagged
      ensures state == Won ==> forall q | q in Mines(Cells()) :: Cells()[q].flagged
    {
      var data := grid.Get(cell);
      if data.uncovered {
        return Playing;
      }
      if flagging {
        ToggleFlag(cell);
      } else {
        if data.flagged {
          return Playing;
        }
        var lost := Reveal(cell);
        if lost {
          return Lost;
        }
      }
      state := if correctSquares == minesNo then Won else Playing;
      AllMinesFlagged(Cells());
    }

    /** The first click inside the grid: the mines are placed away from the
        clicked cell, which is then flagged or revealed on a fresh board. */
    method OpeningClick(cell: Coord, flagging: bool) returns (state: State)
      requires Valid() && !initialized && grid.Contains(cell)
      requires minesNo <= |CoordSet(grid.Cols(), grid.Rows()) - TwoRing(cell, grid.Cols(), grid.Rows())|
      modifies this`initialized, this`flagged, this`correctSquares, this`target, grid.cells
      ensures Valid() && initialized
      ensures |Mines(Cells())| == minesNo
      ensures Mines(Cells()) !! TwoRing(cell, grid.Cols(), grid.Rows())
      ensures Cells()[cell].adjacent == 0
      ensures Cells()[cell].flagged == flagging && Cells()[cell].uncovered == !flagging
      ensures flagged == minesNo - (if flagging then 1 else 0) && correctSquares == 0
      ensures target == None && state == (if minesNo == 0 then Won else Playing)
      ensures flagging ==>
        forall q | q in Cells() && q != cell :: !Cells()[q].uncovered && !Cells()[q].flagged
      ensures !flagging ==> forall q | q in Cells() :: !Cells()[q].flagged
    {
      assert Mines(Cells()) == {} && FlaggedMines(Cells()) == {};
      assert target == None && flagged == minesNo && correctSquares == 0;
      FirstClick(cell);
      ghost var b := Cells();
      assert b[cell] == Cell(false, false, 0, false);
      assert flagged == minesNo && correctSquares == 0 && target == None;
      if flagging {
        state := ClickPlaced(cell, true);
        assert Cells() == Toggled(b, cell);
        ToggledCovered(b, cell);
        assert flagged == minesNo - 1 && correctSquares == 0;
      } else {
        state := ClickPlaced(cell, false);
        RevealingUnflagged(b, Cells());
        assert flagged == minesNo && correctSquares == 0;
      }
    }

    /** A click on `cell`, flagging or revealing. */
    method Click(cell: Coord, flagging: bool) returns (state: State)
      requires Valid()
      requires !initialized && grid.Contains(cell) ==>
        minesNo <= |CoordSet(grid.Cols(), grid.Rows()) - TwoRing(cell, grid.Cols(), grid.Rows())|
      modifies this, grid.cells
      ensures Valid()
      // a click outside the grid changes nothing
      ensures !grid.Contains(cell) ==>
        state == Playing && Cells() == old(Cells()) && unchanged(this)
      // the first click inside the grid places the mines away from the clicked cell
      ensures grid.Contains(cell) ==> initialized
      ensures grid.Contains(cell) && !old(initialized) ==>
        |Mines(Cells())| == minesNo &&
        Mines(Cells()) !! TwoRing(cell, grid.Cols(), grid.Rows()) &&
        Cells()[cell].adjacent == 0 &&
        Cells()[cell].flagged == flagging && Cells()[cell].uncovered == !flagging &&
        flagged == minesNo - (if flagging then 1 else 0) && correctSquares == 0 &&
        target == None && state == (if minesNo == 0 then Won else Playing)
      // ... and leaves every other cell covered and unflagged
      ensures grid.Contains(cell) && !old(initialized) && flagging ==>
        forall q | q in Cells() && q != cell :: !Cells()[q].uncovered && !Cells()[q].flagged
      ensures grid.Contains(cell) && !old(initialized) && !flagging ==>
        forall q | q in Cells() :: !Cells()[q].flagged
      // once placed, the mines stay where they are
      ensures old(initialized) ==> Mines(Cells()) == Mines(old(Cells()))
      // an uncovered cell, or a flagged cell clicked to reveal, is ignored
      ensures grid.Contains(cell) && old(initialized) &&
              (old(Cells())[cell].uncovered || (!flagging && old(Cells())[cell].flagged)) ==>
        state == Playing && Cells() == old(Cells()) && unchanged(this)
      // flagging toggles the flag and moves both counters
      ensures grid.Contains(cell) && old(initialized) && flagging && !old(Cells())[cell].uncovered ==>
        Cells() == Toggled(old(Cells()), cell) &&
        flagged == old(flagged) + (if old(Cells())[cell].flagged then 1 else -1) &&
        correctSquares == old(correctSquares) +
          (if !old(Cells())[cell].mined then 0 else if old(Cells())[cell].flagged then -1 else 1) &&
        target == old(target) && initialized &&
        state == (if correctSquares == minesNo then Won else Playing)
      // revealing a mine loses the round and changes no cell
      ensures grid.Contains(cell) && old(initialized) && !flagging &&
              !old(Cells())[cell].uncovered && !old(Cells())[cell].flagged && old(Cells())[cell].mined ==>
        state == Lost && target == Some(cell) && Cells() == old(Cells()) &&
        flagged == old(flagged) && correctSquares == old(correctSquares)
      // revealing a safe cell uncovers it, and its whole region when its count is 0
      ensures grid.Contains(cell) && old(initialized) && !flagging &&
              !old(Cells())[cell].uncovered && !old(Cells())[cell].flagged && !old(Cells())[cell].mined ==>
        Revealing(old(Cells()), Cells()) && Cells()[cell].uncovered &&
        (old(Cells())[cell].adjacent == 0 ==> Closed(Cells(), cell, grid.Cols(), grid.Rows())) &&
        (old(Cells())[cell].adjacent != 0 ==> Cells() == Revealed(old(Cells()), cell)) &&
        flagged == old(flagged) && correctSquares == old(correctSquares) && target == old(target) &&
        state == (if correctSquares == minesNo then Won else Playing)
      // a win means every mine is flagged
      ensures state == Won ==> forall q | q in Mines(Cells()) :: Cells()[q].flagged
    {
      if !grid.Contains(cell) {
        return Playing;
      }
      if !initialized {
        state := OpeningClick(cell, flagging);
      } else {
        state := ClickPlaced(cell, flagging);
      }
    }
  }

  /** Two flagging clicks on the same covered cell undo each other: the
      board, the mine counter and the count of flagged mines are back where
      they were. */
  method FlagTwice(f: Field, cell: Coord)
    requires f.Valid() && f.initialized && f.grid.Contains(cell) && !f.Cells()[cell].uncovered
    modifies f, f.grid.cells
    ensures f.Valid()
    ensures f.Cells() == old(f.Cells())
    ensures f.flagged == old(f.flagged) && f.correctSquares == old(f.correctSquares)
  {
    ghost var b := f.Cells();
    var _ := f.Click(cell, true);
    var _ := f.Click(cell, true);
    ToggledTwice(b, cell);
  }

  /** A new round opened by a reveal: the first click never hits a mine and,
      since none of its neighbours is mined, it uncovers at least the clicked
      cell and all of its neighbours. */
  method OpenRound(width: nat, height: nat, mines: nat, cell: Coord) returns (f: Field, state: State)
    requires width > 0 && height > 0 && InBounds(cell, width, height)
    requires SafeMineCount(mines, width, height)
    ensures f.Valid() && f.initialized && state != Lost
    ensures |Mines(f.Cells())| == mines
    ensures cell in f.Cells() && f.Cells()[cell].uncovered
    ensures Closed(f.Cells(), cell, width, height)
  {
    SafeMineCountPlaces(mines, width, height, cell);
    f := new Field(width, height, mines);
    state := f.Click(cell, false);
    assert cell in TwoRing(cell, width, height);
    assert cell !in Open(f.Cells(), width, height);
  }
}

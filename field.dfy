/** The minesweeper field: a grid of `rows` x `cols` cells stored row-major in
    two parallel arrays (ground truth and visibility), a cursor, and the two
    counters the game loop tests for the end of the game. */
module Minefield {
  import opened FieldSpec
  import opened Neighborhood

  /** The mines around (row, col) whose offset from it precedes
      (rowDelta, colDelta) in the row-major order the counting loop visits. */
  ghost function Scanned(cells: seq<Cell>, rows: nat, cols: nat, row: nat, col: nat,
                         rowDelta: int, colDelta: int): set<(int, int)>
    requires |cells| == rows * cols
  {
    set p | p in NeighborMines(cells, rows, cols, row, col) &&
            (p.0 - row < rowDelta || (p.0 - row == rowDelta && p.1 - col < colDelta))
  }

  /** Visiting one offset counts one more mine exactly when that position
      is a mined neighbour. */
  lemma ScanStep(cells: seq<Cell>, rows: nat, cols: nat, row: nat, col: nat,
                 rowDelta: int, colDelta: int)
    requires |cells| == rows * cols
    requires -1 <= rowDelta <= 1 && -1 <= colDelta <= 1
    ensures |Scanned(cells, rows, cols, row, col, rowDelta, colDelta + 1)|
         == |Scanned(cells, rows, cols, row, col, rowDelta, colDelta)|
          + (if (rowDelta, colDelta) != (0, 0) && MineAt(cells, rows, cols, row + rowDelta, col + colDelta)
             then 1 else 0)
  {
    if (rowDelta, colDelta) != (0, 0) && MineAt(cells, rows, cols, row + rowDelta, col + colDelta) {
      ScanHit(cells, rows, cols, row, col, rowDelta, colDelta);
    } else {
      ScanMiss(cells, rows, cols, row, col, rowDelta, colDelta);
    }
  }

  lemma ScanHit(cells: seq<Cell>, rows: nat, cols: nat, row: nat, col: nat,
                rowDelta: int, colDelta: int)
    requires |cells| == rows * cols
    requires -1 <= rowDelta <= 1 && -1 <= colDelta <= 1 && (rowDelta, colDelta) != (0, 0)
    requires MineAt(cells, rows, cols, row + rowDelta, col + colDelta)
    ensures Scanned(cells, rows, cols, row, col, rowDelta, colDelta + 1)
         == Scanned(cells, rows, cols, row, col, rowDelta, colDelta) + {(row + rowDelta, col + colDelta)}
    ensures (row + rowDelta, col + colDelta) !in Scanned(cells, rows, cols, row, col, rowDelta, colDelta)
  {
    var p := (row + rowDelta, col + colDelta);
    assert p in Neighbors(rows, cols, row, col);
  }

  lemma ScanMiss(cells: seq<Cell>, rows: nat, cols: nat, row: nat, col: nat,
                 rowDelta: int, colDelta: int)
    requires |cells| == rows * cols
    requires !((rowDelta, colDelta) != (0, 0) && MineAt(cells, rows, cols, row + rowDelta, col + colDelta))
    ensures Scanned(cells, rows, cols, row, col, rowDelta, colDelta + 1)
         == Scanned(cells, rows, cols, row, col, rowDelta, colDelta)
  {
  }

  /** The scan of a row of offsets ends where the next row's begins, the
      first row's begins empty and the last row's ends with every mined neighbour. */
  lemma ScanRows(cells: seq<Cell>, rows: nat, cols: nat, row: nat, col: nat, rowDelta: int)
    requires |cells| == rows * cols
    ensures Scanned(cells, rows, cols, row, col, rowDelta, 2)
         == Scanned(cells, rows, cols, row, col, rowDelta + 1, -1)
    ensures Scanned(cells, rows, cols, row, col, -1, -1) == {}
    ensures Scanned(cells, rows, cols, row, col, 2, -1) == NeighborMines(cells, rows, cols, row, col)
  {
  }

  /** On a 3 x 3 grid every cell is the centre or one of its neighbours, so
      no layout holding a mine is a safe start for a cursor in the centre:
      with 4 mines (50 percent of 9 cells) the unbounded redraw loop of the
      program would never end. */
  lemma {:induction false} CentreOfThreeByThreeNeverSafe(cells: seq<Cell>)
    requires |cells| == 9 && CountMines(cells) > 0
    ensures cells[Index(1, 1, 3)] == Mine || NeighborMines(cells, 3, 3, 1, 1) != {}
  {
    NoMines(cells);
    var k :| 0 <= k < 9 && cells[k] == Mine;
    if k != 4 {
      var r, c := k / 3, k % 3;
      assert Index(r, c, 3) == k;
      assert (r, c) in Neighbors(3, 3, 1, 1);
      assert MineAt(cells, 3, 3, r, c);
      assert (r, c) in NeighborMines(cells, 3, 3, 1, 1);
    }
  }

  class Field {
    var rows: nat
    var cols: nat
    var cells: array<Cell>
    var states: array<CellState>
    var cursorRow: nat
    var cursorCol: nat
    var numMines: nat
    var numClosed: nat

    /** Both arrays hold one element per cell, and the sizes fit a size_t. */
    ghost predicate Valid()
      reads this
    {
      cells.Length == rows * cols && states.Length == rows * cols &&
      rows < SIZE_MODULUS && cols < SIZE_MODULUS && rows * cols < SIZE_MODULUS
    }

    ghost predicate CursorInBounds()
      reads this
    {
      cursorRow < rows && cursorCol < cols
    }

    /** `numClosed` is the number of cells not yet opened: flagged cells count. */
    ghost predicate CountsClosed()
      reads this, states
    {
      numClosed == CountNotOpen(states[..])
    }

    /** Exactly `numMines` cells are mined. */
    ghost predicate MinesPlaced()
      reads this, cells
    {
      CountMines(cells[..]) == numMines
    }

    /** Flat index of the cursor. */
    function CursorIndex(): (k: nat)
      reads this
      requires Valid() && CursorInBounds()
      ensures k < cells.Length
    {
      IndexInBounds(cursorRow, cursorCol, rows, cols);
      Index(cursorRow, cursorCol, cols)
    }

    /** The safe-start guarantee: the cell under the cursor is empty and so
        is every cell around it. */
    ghost predicate SafeAtCursor()
      reads this, cells
      requires Valid() && CursorInBounds()
    {
      CellAt(cursorRow, cursorCol) == Empty &&
      NeighborMines(cells[..], rows, cols, cursorRow, cursorCol) == {}
    }

    /** Some mined cell is open: the game has been lost. */
    ghost predicate MineOpen()
      reads this, cells, states
      requires Valid()
    {
      SomeMineOpen(cells[..], states[..])
    }

    /** The new field: no rows, no columns, no cells. */
    constructor ()
      ensures Valid() && CursorInBounds() == false
      ensures rows == 0 && cols == 0 && cells.Length == 0 && states.Length == 0
      ensures cursorRow == 0 && cursorCol == 0 && numMines == 0 && numClosed == 0
      ensures CountsClosed() && MinesPlaced()
    {
      rows, cols := 0, 0;
      cells := new Cell[0];
      states := new CellState[0];
      cursorRow, cursorCol := 0, 0;
      numMines, numClosed := 0, 0;
    }

    /** Allocates a `newRows` x `newCols` grid of empty, closed cells. The
        cursor and the mine count are left as they were, and empty sizes are
        accepted. */
    method Resize(newRows: nat, newCols: nat)
      requires newRows < SIZE_MODULUS && newCols < SIZE_MODULUS && newRows * newCols < SIZE_MODULUS
      modifies this
      ensures Valid() && fresh(cells) && fresh(states)
      ensures rows == newRows && cols == newCols
      ensures forall k :: 0 <= k < cells.Length ==> cells[k] == Empty
      ensures forall k :: 0 <= k < states.Length ==> states[k] == Closed
      ensures numClosed == newRows * newCols && CountsClosed()
      ensures CountMines(cells[..]) == 0
      ensures cursorRow == old(cursorRow) && cursorCol == old(cursorCol) && numMines == old(numMines)
    {
      var n := newRows * newCols;
      cells, states := AllocateGrid(n);
      rows, cols := newRows, newCols;
      numClosed := n;
    }

    /** The two arrays of a fresh grid of `n` cells, every cell empty and closed. */
    static method AllocateGrid(n: nat) returns (newCells: array<Cell>, newStates: array<CellState>)
      ensures fresh(newCells) && fresh(newStates)
      ensures newCells.Length == n && newStates.Length == n
      ensures forall k :: 0 <= k < n ==> newCells[k] == Empty
      ensures forall k :: 0 <= k < n ==> newStates[k] == Closed
      ensures CountNotOpen(newStates[..]) == n && CountMines(newCells[..]) == 0
    {
      newCells := new Cell[n];
      newStates := new CellState[n];
      var i := 0;
      while i < n
        invariant 0 <= i <= n
        invariant forall k :: 0 <= k < i ==> newCells[k] == Empty && newStates[k] == Closed
      {
        newCells[i] := Empty;
        newStates[i] := Closed;
        i := i + 1;
      }
      AllClosed(newStates[..]);
      NoMines(newCells[..]);
    }

    /** Content of an in-grid cell; the program stops on any other coordinate. */
    function CellAt(row: nat, col: nat): (c: Cell)
      reads this, cells
      requires Valid() && row < rows && col < cols
      ensures c == Mine <==> MineAt(cells[..], rows, cols, row, col)
    {
      IndexInBounds(row, col, rows, cols);
      assert cells[..][Index(row, col, cols)] == cells[Index(row, col, cols)];
      cells[Index(row, col, cols)]
    }

    /** Visibility of an in-grid cell; the program stops on any other coordinate. */
    function StateAt(row: nat, col: nat): (s: CellState)
      reads this, states
      requires Valid() && row < rows && col < cols
      ensures forall k :: 0 <= k < states.Length && k / cols == row && k % cols == col ==> s == states[k]
    {
      IndexInBounds(row, col, rows, cols);
      states[Index(row, col, cols)]
    }

    /** (row, col) is the cursor position: for in-grid coordinates, the same
        cell as the cursor's. */
    function IsAtCursor(row: nat, col: nat): (r: bool)
      reads this
      requires Valid() && CursorInBounds() && row < rows && col < cols
      ensures r <==> Index(row, col, cols) == CursorIndex()
    {
      IndexInjective(row, col, cursorRow, cursorCol, cols);
      cursorRow == row && cursorCol == col
    }

    /** Clears the grid and places `rows * cols * p / 100` mines, each on a
        cell that is still empty. A percentage over the ceiling changes nothing
        and reports the fault on which the program stops. */
    method GenerateMines(p: nat) returns (outcome: Result<()>)
      requires Valid()
      modifies this`numMines, cells
      ensures Valid()
      ensures outcome.Ok? <==> p <= MAX_MINE_PERCENTAGE
      ensures outcome.Fatal? ==> outcome == Fatal(MinePercentageTooHigh)
      ensures outcome.Fatal? ==> numMines == old(numMines) && cells[..] == old(cells[..])
      ensures outcome.Ok? ==> numMines == rows * cols * p / 100 && numMines <= rows * cols / 2
      ensures outcome.Ok? ==> MinesPlaced()
    {
      if p > MAX_MINE_PERCENTAGE {
        return Fatal(MinePercentageTooHigh);
      }
      var n := rows * cols;
      var total := n * p / 100;
      MineBound(n, p);
      numMines := total;
      var i := 0;
      while i < n
        modifies cells
        invariant 0 <= i <= n
        invariant forall k :: 0 <= k < i ==> cells[k] == Empty
      {
        cells[i] := Empty;
        i := i + 1;
      }
      NoMines(cells[..]);
      var placed := 0;
      while placed < total
        modifies cells
        invariant placed <= total
        invariant CountMines(cells[..]) == placed
      {
        // Rejection sampling ends on an empty cell; which one is left open.
        EmptyExists(cells[..]);
        var k :| 0 <= k < n && cells[k] == Empty;
        IndexOf(k, rows, cols);
        var row, col := k / cols, k % cols;
        CountMinesUpdate(cells[..], k, Mine);
        cells[Index(row, col, cols)] := Mine;
        placed := placed + 1;
      }
      outcome := Ok(());
    }

    /** Number of mines among the in-grid neighbours of (row, col). Offsets
        that leave the grid are skipped: at row or column 0 the size_t
        coordinate wraps to 2^64 - 1 and fails the bounds test like one past
        the far edge. */
    method CountNeighborMines(row: nat, col: nat) returns (mines: nat)
      requires Valid() && row < rows && col < cols
      ensures mines == |NeighborMines(cells[..], rows, cols, row, col)|
      ensures mines <= 8
    {
      ghost var grid := cells[..];
      mines := 0;
      ScanRows(grid, rows, cols, row, col, -1);
      var rowDelta := -1;
      while rowDelta <= 1
        invariant -1 <= rowDelta <= 2
        invariant mines == |Scanned(grid, rows, cols, row, col, rowDelta, -1)|
      {
        var colDelta := -1;
        while colDelta <= 1
          invariant -1 <= colDelta <= 2
          invariant mines == |Scanned(grid, rows, cols, row, col, rowDelta, colDelta)|
        {
          ghost var hit := (rowDelta, colDelta) != (0, 0) &&
                           MineAt(grid, rows, cols, row + rowDelta, col + colDelta);
          ScanStep(grid, rows, cols, row, col, rowDelta, colDelta);
          if rowDelta != 0 || colDelta != 0 {
            var currRow := SizeT(row + rowDelta);
            var currCol := SizeT(col + colDelta);
            SizeTCoordinate(row + rowDelta, rows);
            SizeTCoordinate(col + colDelta, cols);
            if currCol < cols && currRow < rows {
              IndexInBounds(currRow, currCol, rows, cols);
              assert hit <==> grid[Index(currRow, currCol, cols)] == Mine;
              if cells[Index(currRow, currCol, cols)] == Mine {
                mines := mines + 1;
              }
            } else {
              assert !hit;
            }
          }
          colDelta := colDelta + 1;
        }
        ScanRows(grid, rows, cols, row, col, rowDelta);
        rowDelta := rowDelta + 1;
      }
      AtMostEight(grid, rows, cols, row, col);
    }

    /** Redraws layouts until the cursor cell and its neighbours are free of
        mines. The program retries without end; here `retries` bounds the
        redraws after the first, and running out is reported. */
    method GenerateAtCursor(p: nat, retries: nat) returns (outcome: Result<()>)
      requires Valid() && CursorInBounds()
      modifies this`numMines, cells
      ensures Valid()
      ensures outcome == Fatal(MinePercentageTooHigh) <==> p > MAX_MINE_PERCENTAGE
      ensures p > MAX_MINE_PERCENTAGE ==> numMines == old(numMines) && cells[..] == old(cells[..])
      ensures outcome != Fatal(MinePercentageTooHigh) ==>
                numMines == rows * cols * p / 100 && MinesPlaced()
      ensures outcome.Ok? ==> SafeAtCursor()
      // The loop stops on the first safe layout: the retry bound fires only
      // where the program would draw again.
      ensures outcome != Fatal(MinePercentageTooHigh) ==> (outcome.Ok? <==> SafeAtCursor())
    {
      var tries := 0;
      while true
        invariant Valid() && tries <= retries
        invariant tries > 0 ==> p <= MAX_MINE_PERCENTAGE
        invariant tries == 0 ==> numMines == old(numMines) && cells[..] == old(cells[..])
        decreases retries - tries
      {
        outcome := GenerateMines(p);
        if outcome.Fatal? {
          return;
        }
        var near := CountNeighborMines(cursorRow, cursorCol);
        var isMine := CellAt(cursorRow, cursorCol) == Mine;
        if near == 0 && !isMine {
          return;
        }
        if tries == retries {
          return Fatal(RetryBoundReached);
        }
        tries := tries + 1;
      }
    }

    /** Opens the cursor cell if it is closed, and then reports its content;
        an open or flagged cell is left alone and reported as empty. */
    method OpenAtCursor() returns (content: Cell)
      requires Valid() && CursorInBounds()
      modifies this`numClosed, states
      ensures Valid()
      ensures states[..] == AfterOpen(old(states[..]), CursorIndex())
      ensures old(StateAt(cursorRow, cursorCol)) == Closed ==>
                content == CellAt(cursorRow, cursorCol) && numClosed == SizeT(old(numClosed) - 1)
      ensures old(StateAt(cursorRow, cursorCol)) != Closed ==>
                content == Empty && numClosed == old(numClosed)
      ensures old(CountsClosed()) ==> CountsClosed()
    {
      IndexInBounds(cursorRow, cursorCol, rows, cols);
      var k := Index(cursorRow, cursorCol, cols);
      OpenCount(states[..], k);
      if states[k] == Closed {
        states[k] := Open;
        numClosed := SizeT(numClosed - 1);
        return cells[k];
      }
      return Empty;
    }

    /** Toggles a flag on the cursor cell; an open cell is left alone. */
    method FlagAtCursor()
      requires Valid() && CursorInBounds()
      modifies states
      ensures states[..] == AfterFlag(old(states[..]), CursorIndex())
      ensures old(CountsClosed()) ==> CountsClosed()
    {
      IndexInBounds(cursorRow, cursorCol, rows, cols);
      var k := Index(cursorRow, cursorCol, cols);
      FlagCount(states[..], k);
      if states[k] == Closed {
        states[k] := Flagged;
        return;
      }
      if states[k] == Flagged {
        states[k] := Closed;
      }
    }

    /** Opens every mined cell for the final display; the states of empty
        cells and `numClosed` are left as they were. */
    method RevealMines()
      requires Valid()
      modifies states
      ensures forall k :: 0 <= k < states.Length ==>
                states[k] == (if cells[k] == Mine then Open else old(states[k]))
      ensures MineOpen() <==> CountMines(cells[..]) > 0
    {
      var i := 0;
      while i < rows * cols
        invariant 0 <= i <= rows * cols
        invariant forall k :: 0 <= k < i ==>
                    states[k] == (if cells[k] == Mine then Open else old(states[k]))
        invariant forall k :: i <= k < states.Length ==> states[k] == old(states[k])
      {
        if cells[i] == Mine {
          states[i] := Open;
        }
        i := i + 1;
      }
      NoMines(cells[..]);
    }

    /** Whether some mined cell is open. */
    method IsMineOpen() returns (lost: bool)
      requires Valid()
      ensures lost == MineOpen()
    {
      var i := 0;
      while i < rows * cols
        invariant 0 <= i <= rows * cols
        invariant forall k :: 0 <= k < i ==> !(cells[k] == Mine && states[k] == Open)
      {
        if cells[i] == Mine && states[i] == Open {
          return true;
        }
        i := i + 1;
      }
      return false;
    }
  }
}

/** The game loop's per-keystroke step: one (lower-cased) key moves the
    cursor, opens or flags the cursor cell, or is ignored; the first open
    generates the mines; the step reports whether the game goes on. */
module Controller {
  import opened FieldSpec
  import opened Neighborhood
  import opened Minefield

  /** The cursor row after key `action`: up and down step by one and stop at
      the first and last row. */
  function MovedRow(action: char, row: nat, rows: nat): (r: nat)
    requires row < rows
    ensures r < rows
    ensures var step := if action == 'w' then -1 else if action == 's' then 1 else 0;
            r == if row + step < 0 then 0 else if row + step >= rows then rows - 1 else row + step
  {
    match action
    case 'w' => if row > 0 then row - 1 else row
    case 's' => if row < rows - 1 then row + 1 else row
    case _ => row
  }

  /** The cursor column after key `action`: left and right step by one and
      stop at the first and last column. */
  function MovedCol(action: char, col: nat, cols: nat): (c: nat)
    requires col < cols
    ensures c < cols
    ensures var step := if action == 'a' then -1 else if action == 'd' then 1 else 0;
            c == if col + step < 0 then 0 else if col + step >= cols then cols - 1 else col + step
  {
    match action
    case 'a' => if col > 0 then col - 1 else col
    case 'd' => if col < cols - 1 then col + 1 else col
    case _ => col
  }

  /** The open key: the first open generates a safe layout around the
      cursor, then the cursor cell is opened; a mine ends the game and opens
      every mine for display, and so does a field where only mined cells are
      left unopened. */
  method OpenKey(field: Field, p: nat, first: bool, retries: nat)
    returns (result: Result<bool>, firstAfter: bool)
    requires field.Valid() && field.CursorInBounds()
    modifies field`numMines, field`numClosed, field.cells, field.states
    ensures field.Valid() && field.CursorInBounds()
    // Mines are generated on the first open only.
    ensures result.Fatal? ==> first
    ensures result == Fatal(MinePercentageTooHigh) <==> first && p > MAX_MINE_PERCENTAGE
    ensures result == Fatal(RetryBoundReached) ==> !field.SafeAtCursor()
    ensures !first ==> result.Ok? && field.cells[..] == old(field.cells[..]) && field.numMines == old(field.numMines)
    ensures result.Ok? ==> !firstAfter
    ensures first && result.Ok? ==>
              field.numMines == field.rows * field.cols * p / 100 && field.MinesPlaced() &&
              field.CellAt(field.cursorRow, field.cursorCol) == Empty &&
              NeighborMines(field.cells[..], field.rows, field.cols, field.cursorRow, field.cursorCol) == {}
    // The cell opens if closed; a mine ends the game and is shown with every
    // other mine, and the game also ends when only mines are left.
    ensures result.Ok? ==>
              var k := field.CursorIndex();
              var reached := AfterOpen(old(field.states[..]), k);
              var hit := old(field.states[k]) == Closed && field.cells[k] == Mine;
              (result.value <==> !hit && field.numClosed != field.numMines) &&
              (!hit ==> field.states[..] == reached) &&
              (hit ==> forall j :: 0 <= j < field.states.Length ==>
                         field.states[j] == if field.cells[j] == Mine then Open else reached[j]) &&
              field.numClosed == if old(field.states[k]) == Closed then SizeT(old(field.numClosed) - 1)
                                 else old(field.numClosed)
    // Until a mine is open, `numClosed` keeps counting the unopened cells.
    ensures result.Ok? && old(field.CountsClosed()) && !field.MineOpen() ==> field.CountsClosed()
  {
    firstAfter := first;
    if first {
      var generated := field.GenerateAtCursor(p, retries);
      if generated.Fatal? {
        return Fatal(generated.fault), firstAfter;
      }
      firstAfter := false;
    }
    var content := field.OpenAtCursor();
    if content == Mine {
      field.RevealMines();
      return Ok(false), firstAfter;
    }
    return Ok(field.numClosed != field.numMines), firstAfter;
  }

  /** Applies one key to the field. `first` says that no cell has been opened
      yet; `retries` bounds the safe-start redraws. The result is Ok(false)
      when the game is over (a mine was opened, or only mined cells are left
      unopened), Ok(true) when it goes on, and a fault when the program
      would stop. */
  method PerformAction(field: Field, action: char, p: nat, first: bool, retries: nat)
    returns (result: Result<bool>, firstAfter: bool)
    requires field.Valid() && field.CursorInBounds() && field.rows >= 1 && field.cols >= 1
    modifies field, field.cells, field.states
    ensures field.Valid() && field.CursorInBounds()
    ensures field.rows == old(field.rows) && field.cols == old(field.cols)
    ensures field.cells == old(field.cells) && field.states == old(field.states)
    // Moves: the cursor steps and stays on the grid.
    ensures field.cursorRow == MovedRow(action, old(field.cursorRow), field.rows)
    ensures field.cursorCol == MovedCol(action, old(field.cursorCol), field.cols)
    // Everything but an open leaves the layout, the counters and `first` alone.
    ensures action != ' ' ==>
              firstAfter == first && field.cells[..] == old(field.cells[..]) &&
              field.numMines == old(field.numMines) && field.numClosed == old(field.numClosed) &&
              result == Ok(field.numClosed != field.numMines)
    ensures action != ' ' && action != 'f' ==> field.states[..] == old(field.states[..])
    ensures action == 'f' ==> field.states[..] == AfterFlag(old(field.states[..]), field.CursorIndex())
    // Mines are generated on the first open only.
    ensures result.Fatal? ==> action == ' ' && first
    ensures result == Fatal(MinePercentageTooHigh) <==> action == ' ' && first && p > MAX_MINE_PERCENTAGE
    ensures result == Fatal(RetryBoundReached) ==> !field.SafeAtCursor()
    ensures action == ' ' && !first ==>
              result.Ok? && field.cells[..] == old(field.cells[..]) && field.numMines == old(field.numMines)
    ensures action == ' ' && result.Ok? ==> !firstAfter
    ensures action == ' ' && first && result.Ok? ==>
              field.numMines == field.rows * field.cols * p / 100 && field.MinesPlaced() &&
              field.CellAt(field.cursorRow, field.cursorCol) == Empty &&
              NeighborMines(field.cells[..], field.rows, field.cols, field.cursorRow, field.cursorCol) == {}
    // An open: the cell opens if closed, a mine ends the game and is shown
    // with every other mine, and the game also ends when only mines are left.
    ensures action == ' ' && result.Ok? ==>
              var k := field.CursorIndex();
              var reached := AfterOpen(old(field.states[..]), k);
              var hit := old(field.states[k]) == Closed && field.cells[k] == Mine;
              (result.value <==> !hit && field.numClosed != field.numMines) &&
              (!hit ==> field.states[..] == reached) &&
              (hit ==> forall j :: 0 <= j < field.states.Length ==>
                         field.states[j] == if field.cells[j] == Mine then Open else reached[j]) &&
              field.numClosed == if old(field.states[k]) == Closed then SizeT(old(field.numClosed) - 1)
                                 else old(field.numClosed)
    // Until a mine is open, `numClosed` keeps counting the unopened cells.
    ensures result.Ok? && old(field.CountsClosed()) && !field.MineOpen() ==> field.CountsClosed()
  {
    firstAfter := first;
    match action {
      case 'w' =>
        if field.cursorRow > 0 {
          field.cursorRow := field.cursorRow - 1;
        }
      case 's' =>
        if field.cursorRow < field.rows - 1 {
          field.cursorRow := field.cursorRow + 1;
        }
      case 'a' =>
        if field.cursorCol > 0 {
          field.cursorCol := field.cursorCol - 1;
        }
      case 'd' =>
        if field.cursorCol < field.cols - 1 {
          field.cursorCol := field.cursorCol + 1;
        }
      case ' ' =>
        result, firstAfter := OpenKey(field, p, first, retries);
        return;
      case 'f' =>
        field.FlagAtCursor();
      case _ =>
    }
    result := Ok(field.numClosed != field.numMines);
  }
}

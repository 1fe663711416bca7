/** The values a minesweeper field is made of, the counts the field keeps,
    and the pure state transitions its operations perform on the flat
    arrays, with the facts about them that the field and the game loop rely on. */
module FieldSpec {

  /** Ground truth of one grid position. */
  datatype Cell = Empty | Mine

  /** What the player sees of one grid position. */
  datatype CellState = Open | Closed | Flagged

  /** Ceiling on the mine density, in percent. */
  const MAX_MINE_PERCENTAGE: nat := 50

  /** size_t arithmetic wraps modulo 2^64. */
  const SIZE_MODULUS: nat := 0x1_0000_0000_0000_0000

  /** The configuration errors on which the program stops. */
  datatype Fault =
    | MinePercentageTooHigh
      /** The safe-start loop ran out of its retry bound; the program itself
          would keep drawing layouts. */
    | RetryBoundReached

  /** The value an operation computes, or the fault on which the program stops. */
  datatype Result<T> = Ok(value: T) | Fatal(fault: Fault)

  /** An integer reduced the way a size_t holds it. */
  function SizeT(x: int): (r: nat)
    ensures r < SIZE_MODULUS
    ensures 0 <= x < SIZE_MODULUS ==> r == x
    ensures x == -1 ==> r == SIZE_MODULUS - 1
  {
    x % SIZE_MODULUS
  }

  // ---------------------------------------------------------------------
  // Row-major index arithmetic

  /** Flat index of (row, col) in a grid with `cols` columns. */
  function Index(row: nat, col: nat, cols: nat): (k: nat)
    ensures col < cols ==> row * cols <= k < row * cols + cols
  {
    row * cols + col
  }

  /** An in-grid coordinate addresses an element of the flat arrays. */
  lemma IndexInBounds(row: nat, col: nat, rows: nat, cols: nat)
    requires row < rows && col < cols
    ensures Index(row, col, cols) < rows * cols
  {
    calc {
      row * cols + col;
    <
      row * cols + cols;
    ==
      (row + 1) * cols;
    <=  { MulLeMonotone(row + 1, rows, cols); }
      rows * cols;
    }
  }

  lemma MulLeMonotone(a: nat, b: nat, c: nat)
    requires a <= b
    ensures a * c <= b * c
  {
    assert b * c == a * c + (b - a) * c;
  }

  /** Each flat index comes from exactly one coordinate: the row is the
      quotient and the column the remainder. */
  lemma IndexRoundTrip(row: nat, col: nat, cols: nat)
    requires col < cols
    ensures Index(row, col, cols) / cols == row
    ensures Index(row, col, cols) % cols == col
  {
    var k := row * cols + col;
    var q, m := k / cols, k % cols;
    assert q * cols + m == k;
    if q < row {
      MulLeMonotone(q + 1, row, cols);
      assert false;
    } else if q > row {
      MulLeMonotone(row + 1, q, cols);
      assert false;
    }
  }

  /** Every flat index of the grid comes from the in-grid coordinate given by
      its quotient and remainder. */
  lemma IndexOf(k: nat, rows: nat, cols: nat)
    requires k < rows * cols
    ensures cols > 0 && 0 <= k / cols < rows && 0 <= k % cols < cols
    ensures Index(k / cols, k % cols, cols) == k
  {
    if k / cols >= rows {
      MulLeMonotone(rows, k / cols, cols);
    }
  }

  /** A coordinate one past either side of `0..n-1`, reduced as a size_t,
      passes the bounds test `< n` exactly when it lies inside. */
  lemma SizeTCoordinate(x: int, n: nat)
    requires -1 <= x <= n < SIZE_MODULUS
    ensures SizeT(x) < n <==> 0 <= x < n
    ensures 0 <= x ==> SizeT(x) == x
  {
  }

  /** Two in-grid coordinates share a flat index only if they are equal. */
  lemma IndexInjective(r1: nat, c1: nat, r2: nat, c2: nat, cols: nat)
    requires c1 < cols && c2 < cols
    ensures Index(r1, c1, cols) == Index(r2, c2, cols) <==> r1 == r2 && c1 == c2
  {
    IndexRoundTrip(r1, c1, cols);
    IndexRoundTrip(r2, c2, cols);
  }

  // ---------------------------------------------------------------------
  // Counts

  /** Number of mined cells. */
  function CountMines(s: seq<Cell>): (n: nat)
    ensures n <= |s|
  {
    if s == [] then 0 else CountMines(s[..|s| - 1]) + (if s[|s| - 1] == Mine then 1 else 0)
  }

  /** Number of cells that are not OPEN (CLOSED or FLAGGED). */
  function CountNotOpen(s: seq<CellState>): (n: nat)
    ensures n <= |s|
  {
    if s == [] then 0 else CountNotOpen(s[..|s| - 1]) + (if s[|s| - 1] != Open then 1 else 0)
  }

  /** A grid that holds no mine counts none, and the count is zero only then. */
  lemma {:induction false} NoMines(s: seq<Cell>)
    ensures CountMines(s) == 0 <==> forall k :: 0 <= k < |s| ==> s[k] == Empty
  {
    if s != [] {
      var init := s[..|s| - 1];
      NoMines(init);
      assert forall k :: 0 <= k < |init| ==> init[k] == s[k];
    }
  }

  /** A grid whose states are all CLOSED counts every cell as not open. */
  lemma {:induction false} AllClosed(s: seq<CellState>)
    requires forall k :: 0 <= k < |s| ==> s[k] == Closed
    ensures CountNotOpen(s) == |s|
  {
    if s != [] {
      var init := s[..|s| - 1];
      assert forall k :: 0 <= k < |init| ==> init[k] == s[k];
      AllClosed(init);
    }
  }

  /** While fewer cells are mined than exist, some cell is still EMPTY, so
      the next rejection-sampling draw can succeed. */
  lemma {:induction false} EmptyExists(s: seq<Cell>)
    requires CountMines(s) < |s|
    ensures exists k :: 0 <= k < |s| && s[k] == Empty
  {
    var init := s[..|s| - 1];
    if s[|s| - 1] != Empty {
      EmptyExists(init);
      var k :| 0 <= k < |init| && init[k] == Empty;
      assert s[k] == Empty;
    }
  }

  /** Overwriting one cell changes the mine count by the difference of the
      old and the new content. */
  lemma {:induction false} CountMinesUpdate(s: seq<Cell>, k: nat, v: Cell)
    requires k < |s|
    ensures CountMines(s[k := v]) + (if s[k] == Mine then 1 else 0)
         == CountMines(s) + (if v == Mine then 1 else 0)
  {
    var last := |s| - 1;
    if k < last {
      CountMinesUpdate(s[..last], k, v);
      assert s[k := v][..last] == s[..last][k := v];
    } else {
      assert s[k := v][..last] == s[..last];
    }
  }

  /** Overwriting one state changes the not-open count by the difference of
      the old and the new state. */
  lemma {:induction false} CountNotOpenUpdate(s: seq<CellState>, k: nat, v: CellState)
    requires k < |s|
    ensures CountNotOpen(s[k := v]) + (if s[k] != Open then 1 else 0)
         == CountNotOpen(s) + (if v != Open then 1 else 0)
  {
    var last := |s| - 1;
    if k < last {
      CountNotOpenUpdate(s[..last], k, v);
      assert s[k := v][..last] == s[..last][k := v];
    } else {
      assert s[k := v][..last] == s[..last];
    }
  }

  /** With `p` at most the ceiling, `n * p / 100` mines fill at most half of
      `n` cells, so a grid with any cell always keeps an EMPTY one. */
  lemma MineBound(n: nat, p: nat)
    requires p <= MAX_MINE_PERCENTAGE
    ensures n * p / 100 <= n / 2
    ensures n > 0 ==> n * p / 100 < n
  {
    var q := n * p / 100;
    assert q * 100 <= n * p;
    MulLeMonotone(p, 50, n);
    assert p * n == n * p;
    assert q * 100 <= n * 50;
    assert q * 2 <= n;
  }

  // ---------------------------------------------------------------------
  // State transitions at one flat index

  /** Opening: a CLOSED cell becomes OPEN; OPEN and FLAGGED cells stay. */
  function AfterOpen(s: seq<CellState>, k: nat): (t: seq<CellState>)
    requires k < |s|
    ensures |t| == |s|
    ensures s[k] == Closed ==> t[k] == Open
    ensures s[k] != Closed ==> t == s
    ensures forall j :: 0 <= j < |s| && j != k ==> t[j] == s[j]
  {
    if s[k] == Closed then s[k := Open] else s
  }

  /** Flagging toggles CLOSED and FLAGGED and leaves OPEN alone. */
  function Toggled(st: CellState): (t: CellState)
    ensures t == Open <==> st == Open
    ensures st != Open ==> t != st
  {
    match st
    case Closed => Flagged
    case Flagged => Closed
    case Open => Open
  }

  function AfterFlag(s: seq<CellState>, k: nat): (t: seq<CellState>)
    requires k < |s|
    ensures |t| == |s|
    ensures s[k] == Closed ==> t[k] == Flagged
    ensures s[k] == Flagged ==> t[k] == Closed
    ensures s[k] == Open ==> t == s
    ensures forall j :: 0 <= j < |s| && j != k ==> t[j] == s[j]
  {
    s[k := Toggled(s[k])]
  }

  /** Opening a cell changes no other cell, and opening it again changes nothing. */
  lemma OpenIsIdempotent(s: seq<CellState>, k: nat)
    requires k < |s|
    ensures |AfterOpen(s, k)| == |s|
    ensures forall j :: 0 <= j < |s| && j != k ==> AfterOpen(s, k)[j] == s[j]
    ensures AfterOpen(s, k)[k] != Closed
    ensures AfterOpen(AfterOpen(s, k), k) == AfterOpen(s, k)
  {
  }

  /** Opening lowers the not-open count by one exactly when the cell was CLOSED. */
  lemma OpenCount(s: seq<CellState>, k: nat)
    requires k < |s|
    ensures s[k] == Closed ==> CountNotOpen(AfterOpen(s, k)) + 1 == CountNotOpen(s)
    ensures s[k] != Closed ==> CountNotOpen(AfterOpen(s, k)) == CountNotOpen(s)
  {
    if s[k] == Closed {
      CountNotOpenUpdate(s, k, Open);
    }
  }

  /** Flagging twice restores the states. */
  lemma FlagIsInvolution(s: seq<CellState>, k: nat)
    requires k < |s|
    ensures AfterFlag(AfterFlag(s, k), k) == s
  {
    assert Toggled(Toggled(s[k])) == s[k];
  }

  /** Flagging never changes which cells are open, so it keeps the not-open count. */
  lemma FlagCount(s: seq<CellState>, k: nat)
    requires k < |s|
    ensures CountNotOpen(AfterFlag(s, k)) == CountNotOpen(s)
  {
    CountNotOpenUpdate(s, k, Toggled(s[k]));
  }

  // ---------------------------------------------------------------------
  // End of game

  /** Some mined cell has been opened. */
  ghost predicate SomeMineOpen(cells: seq<Cell>, states: seq<CellState>)
    requires |cells| == |states|
  {
    exists k :: 0 <= k < |cells| && cells[k] == Mine && states[k] == Open
  }

  /** With no mine open, the not-open count equals the mine count exactly
      when every EMPTY cell has been opened: the win test of the game loop
      says that the player has uncovered every safe cell. */
  lemma {:induction false} WinMeansEverySafeCellOpen(cells: seq<Cell>, states: seq<CellState>)
    requires |cells| == |states|
    requires !SomeMineOpen(cells, states)
    ensures CountNotOpen(states) >= CountMines(cells)
    ensures CountNotOpen(states) == CountMines(cells)
        <==> forall k :: 0 <= k < |cells| && cells[k] == Empty ==> states[k] == Open
  {
    if cells != [] {
      var last := |cells| - 1;
      var c, s := cells[..last], states[..last];
      assert forall k :: 0 <= k < |c| ==> c[k] == cells[k] && s[k] == states[k];
      WinMeansEverySafeCellOpen(c, s);
      if cells[last] == Mine {
        assert states[last] != Open;
      }
    }
  }
}

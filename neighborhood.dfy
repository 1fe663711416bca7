/** The cells around a grid position and the mines among them: the reference
    definition that the field's neighbour-counting loop is proved against,
    and the sizes of the neighbourhood at corners, edges and inside the grid. */
module Neighborhood {
  import opened FieldSpec

  /** (r, c) is one of the eight positions around (row, col). */
  ghost predicate Adjacent(r: int, c: int, row: int, col: int) {
    row - 1 <= r <= row + 1 && col - 1 <= c <= col + 1 && (r != row || c != col)
  }

  /** The in-grid positions around (row, col); those past an edge are absent. */
  ghost function Neighbors(rows: nat, cols: nat, row: nat, col: nat): set<(int, int)> {
    set r: int, c: int | 0 <= r < rows && 0 <= c < cols && Adjacent(r, c, row, col) :: (r, c)
  }

  /** The cell at an in-grid position is a mine. */
  ghost predicate MineAt(cells: seq<Cell>, rows: nat, cols: nat, r: int, c: int)
    requires |cells| == rows * cols
  {
    0 <= r < rows && 0 <= c < cols &&
    (IndexInBounds(r, c, rows, cols); cells[Index(r, c, cols)] == Mine)
  }

  /** The mined positions around (row, col). */
  ghost function NeighborMines(cells: seq<Cell>, rows: nat, cols: nat, row: nat, col: nat): set<(int, int)>
    requires |cells| == rows * cols
  {
    set p | p in Neighbors(rows, cols, row, col) && MineAt(cells, rows, cols, p.0, p.1)
  }

  // ---------------------------------------------------------------------
  // Sizes

  ghost function Product(xs: set<int>, ys: set<int>): set<(int, int)> {
    set x, y | x in xs && y in ys :: (x, y)
  }

  lemma {:induction false} LineSize(x: int, ys: set<int>)
    ensures |Product({x}, ys)| == |ys|
    decreases |ys|
  {
    if |ys| == 0 {
      assert Product({x}, ys) == {};
    } else {
      if forall z :: z !in ys { assert false; }
      var y :| y in ys;
      assert Product({x}, ys) == Product({x}, ys - {y}) + {(x, y)};
      LineSize(x, ys - {y});
    }
  }

  lemma {:induction false} ProductSize(xs: set<int>, ys: set<int>)
    ensures |Product(xs, ys)| == |xs| * |ys|
    decreases |xs|
  {
    if |xs| == 0 {
      assert Product(xs, ys) == {};
    } else {
      if forall z :: z !in xs { assert false; }
      var x :| x in xs;
      var rest := xs - {x};
      ProductSplit(xs, ys, x);
      ProductSize(rest, ys);
      LineSize(x, ys);
      assert |xs| == |rest| + 1;
    }
  }

  lemma ProductSplit(xs: set<int>, ys: set<int>, x: int)
    requires x in xs
    ensures Product(xs, ys) == Product(xs - {x}, ys) + Product({x}, ys)
    ensures Product(xs - {x}, ys) * Product({x}, ys) == {}
  {
  }

  /** The rows (or columns) a neighbourhood spans: `i` and those next to it
      that lie inside `0..n-1`. */
  ghost function Span(n: nat, i: nat): set<int> {
    {i as int} + (if i > 0 then {i - 1} else {}) + (if i + 1 < n then {i + 1} else {})
  }

  lemma SpanSize(n: nat, i: nat)
    ensures |Span(n, i)| == 1 + (if i > 0 then 1 else 0) + (if i + 1 < n then 1 else 0)
  {
    var below: set<int> := if i > 0 then {i - 1} else {};
    var above: set<int> := if i + 1 < n then {i + 1} else {};
    assert |{i as int} + below| == 1 + |below|;
    assert ({i as int} + below) * above == {};
  }

  /** The neighbours of a cell are the block of rows and columns it spans,
      without the cell itself. */
  lemma NeighborsAreBlock(rows: nat, cols: nat, row: nat, col: nat)
    requires row < rows && col < cols
    ensures Neighbors(rows, cols, row, col)
         == Product(Span(rows, row), Span(cols, col)) - {(row as int, col as int)}
  {
    var block := Product(Span(rows, row), Span(cols, col));
    forall p | p in Neighbors(rows, cols, row, col)
      ensures p in block
    {
      assert p.0 in Span(rows, row) && p.1 in Span(cols, col);
    }
    forall p | p in block && p != (row as int, col as int)
      ensures p in Neighbors(rows, cols, row, col)
    {
      assert 0 <= p.0 < rows && 0 <= p.1 < cols && Adjacent(p.0, p.1, row, col);
    }
  }

  /** A neighbourhood holds one position fewer than the block of rows and
      columns it spans: the centre. */
  lemma NeighborsSize(rows: nat, cols: nat, row: nat, col: nat)
    requires row < rows && col < cols
    ensures |Neighbors(rows, cols, row, col)|
         == (1 + (if row > 0 then 1 else 0) + (if row + 1 < rows then 1 else 0))
          * (1 + (if col > 0 then 1 else 0) + (if col + 1 < cols then 1 else 0)) - 1
  {
    var block := Product(Span(rows, row), Span(cols, col));
    NeighborsAreBlock(rows, cols, row, col);
    assert (row as int, col as int) in block;
    ProductSize(Span(rows, row), Span(cols, col));
    SpanSize(rows, row);
    SpanSize(cols, col);
  }

  /** A corner of a grid with at least two rows and two columns has three neighbours. */
  lemma CornerHasThree(rows: nat, cols: nat, row: nat, col: nat)
    requires rows >= 2 && cols >= 2
    requires row == 0 || row == rows - 1
    requires col == 0 || col == cols - 1
    ensures |Neighbors(rows, cols, row, col)| == 3
  {
    NeighborsSize(rows, cols, row, col);
  }

  /** A cell on an edge but not at a corner has five neighbours. */
  lemma EdgeHasFive(rows: nat, cols: nat, row: nat, col: nat)
    requires rows >= 2 && cols >= 2 && row < rows && col < cols
    requires (row == 0 || row == rows - 1) != (col == 0 || col == cols - 1)
    ensures |Neighbors(rows, cols, row, col)| == 5
  {
    NeighborsSize(rows, cols, row, col);
  }

  /** A cell away from every edge has eight neighbours. */
  lemma InteriorHasEight(rows: nat, cols: nat, row: nat, col: nat)
    requires 0 < row < rows - 1 && 0 < col < cols - 1
    ensures |Neighbors(rows, cols, row, col)| == 8
  {
    NeighborsSize(rows, cols, row, col);
  }

  /** No cell has more than eight neighbouring mines. */
  lemma AtMostEight(cells: seq<Cell>, rows: nat, cols: nat, row: nat, col: nat)
    requires |cells| == rows * cols && row < rows && col < cols
    ensures |NeighborMines(cells, rows, cols, row, col)| <= |Neighbors(rows, cols, row, col)| <= 8
  {
    var all := Neighbors(rows, cols, row, col);
    var mines := NeighborMines(cells, rows, cols, row, col);
    assert all == mines + (all - mines);
    NeighborsSize(rows, cols, row, col);
  }
}

/**
  Row-major cell addressing shared by every mask variant, and the cell-wise
  counts and sums (in the column-major order the mask loops visit the grid)
  that specify Sum, Centroid and Perimeter.
*/
module Grid {

  /** A grid point (System.Drawing.Point): column x, row y. */
  datatype Point = Point(x: int, y: int)

  /** All points of the grid. */
  ghost function GridPoints(width: int, height: int): (s: set<Point>)
    ensures forall p: Point :: p in s <==> 0 <= p.x < width && 0 <= p.y < height
  {
    set x, y | 0 <= x < width && 0 <= y < height :: Point(x, y)
  }

  /** The row-major position of cell (column, row): `row * width + column`. */
  function Index(column: int, row: int, width: int): int
  {
    row * width + column
  }

  /**
    Cell (column, row) lies inside a width-by-height grid. The last conjunct
    follows from the first two (InGridIntro) and is kept so that the row-major
    position of a grid cell is known to be in range wherever the cell is.
  */
  predicate InGrid(column: int, row: int, width: int, height: int)
  {
    0 <= column < width && 0 <= row < height && 0 <= Index(column, row, width) < width * height
  }

  lemma InGridIntro(column: int, row: int, width: int, height: int)
    requires 0 <= column < width && 0 <= row < height
    ensures InGrid(column, row, width, height)
  {
    assert row * width <= (height - 1) * width by {
      MulLeq(row, height - 1, width);
    }
  }

  lemma MulLeq(a: int, b: int, k: int)
    requires a <= b && 0 <= k
    ensures a * k <= b * k
  {
  }

  /** Every position of a width-by-height grid is the index of a grid cell. */
  lemma CellOf(i: int, width: int, height: int) returns (column: int, row: int)
    requires 0 <= width && 0 <= i < width * height
    ensures InGrid(column, row, width, height) && Index(column, row, width) == i
    ensures column == i % width && row == i / width
  {
    column, row := i % width, i / width;
    assert row * width + column == i;
    if row >= height {
      MulLeq(height, row, width);
      assert false;
    }
  }

  lemma IndexInjective(c1: int, r1: int, c2: int, r2: int, width: int, height: int)
    requires InGrid(c1, r1, width, height) && InGrid(c2, r2, width, height)
    requires Index(c1, r1, width) == Index(c2, r2, width)
    ensures c1 == c2 && r1 == r2
  {
    if r1 < r2 {
      MulLeq(r1 + 1, r2, width);
      assert false;
    } else if r2 < r1 {
      MulLeq(r2 + 1, r1, width);
      assert false;
    }
  }

  /** Distinct cells of a grid have distinct row-major positions. */
  lemma OthersDistinct(column: int, row: int, width: int, height: int)
    requires InGrid(column, row, width, height)
    ensures forall c, r :: InGrid(c, r, width, height) && (c != column || r != row) ==> Index(c, r, width) != Index(column, row, width)
  {
    forall c, r | InGrid(c, r, width, height) && (c != column || r != row)
      ensures Index(c, r, width) != Index(column, row, width)
    {
      if Index(c, r, width) == Index(column, row, width) {
        IndexInjective(c, r, column, row, width, height);
      }
    }
  }

  /** Two bit grids that agree on every cell of a width-by-height grid are equal. */
  lemma CellwiseEqual<T>(a: seq<T>, b: seq<T>, width: int, height: int)
    requires 0 <= width && |a| == width * height && |b| == width * height
    requires forall c, r :: InGrid(c, r, width, height) ==> a[Index(c, r, width)] == b[Index(c, r, width)]
    ensures a == b
  {
    forall i | 0 <= i < |a|
      ensures a[i] == b[i]
    {
      var c, r := CellOf(i, width, height);
    }
  }

  /** Number of true entries of a bit sequence. */
  function CountTrue(s: seq<bool>): (n: nat)
    ensures n <= |s|
  {
    if s == [] then 0 else CountTrue(s[..|s| - 1]) + (if s[|s| - 1] then 1 else 0)
  }

  /** Cell (column, row) is inside the grid and selected in the row-major cells `s`. */
  predicate Selected(s: seq<bool>, width: int, height: int, column: int, row: int)
  {
    InGrid(column, row, width, height) && 0 <= Index(column, row, width) < |s| && s[Index(column, row, width)]
  }

  /** A selected cell with a left, right, up or down neighbour that is outside the grid or unselected. */
  predicate OnBorder(s: seq<bool>, width: int, height: int, column: int, row: int)
  {
    Selected(s, width, height, column, row) &&
    (!Selected(s, width, height, column - 1, row) || !Selected(s, width, height, column + 1, row) ||
     !Selected(s, width, height, column, row - 1) || !Selected(s, width, height, column, row + 1))
  }

  /** What a mask descriptor adds up over the selected cells. */
  datatype Measure = Area | ColumnIndex | RowIndex | Border

  function Weight(s: seq<bool>, width: int, height: int, k: Measure, column: int, row: int): int
  {
    if !Selected(s, width, height, column, row) then 0
    else match k
      case Area => 1
      case ColumnIndex => column
      case RowIndex => row
      case Border => if OnBorder(s, width, height, column, row) then 1 else 0
  }

  /** Sum of the weights of rows 0 .. rows-1 of one column. */
  function ColumnTotal(s: seq<bool>, width: int, height: int, k: Measure, column: int, rows: int): int
    decreases rows
  {
    if rows <= 0 then 0 else ColumnTotal(s, width, height, k, column, rows - 1) + Weight(s, width, height, k, column, rows - 1)
  }

  /** Sum of the weights of columns 0 .. cols-1, each over rows 0 .. rows-1 (column-major). */
  function Total(s: seq<bool>, width: int, height: int, k: Measure, cols: int, rows: int): int
    decreases cols
  {
    if cols <= 0 then 0 else Total(s, width, height, k, cols - 1, rows) + ColumnTotal(s, width, height, k, cols - 1, rows)
  }

  /** Sum of the weights of columns 0 .. cols-1 of one row. */
  function RowTotal(s: seq<bool>, width: int, height: int, k: Measure, cols: int, row: int): int
    decreases cols
  {
    if cols <= 0 then 0 else RowTotal(s, width, height, k, cols - 1, row) + Weight(s, width, height, k, cols - 1, row)
  }

  /** The number of selected cells of the whole grid. */
  function SelectedArea(s: seq<bool>, width: int, height: int): int
  {
    Total(s, width, height, Area, width, height)
  }

  lemma {:induction false} TotalAddRow(s: seq<bool>, width: int, height: int, k: Measure, cols: int, rows: int)
    requires 0 <= cols && 0 <= rows
    ensures Total(s, width, height, k, cols, rows + 1) == Total(s, width, height, k, cols, rows) + RowTotal(s, width, height, k, cols, rows)
    decreases cols
  {
    if cols > 0 {
      TotalAddRow(s, width, height, k, cols - 1, rows);
    }
  }

  lemma {:induction false} CountTruePrefix(s: seq<bool>, width: int, height: int, row: int, cols: int)
    requires 0 <= row < height && 0 <= cols <= width && |s| == width * height
    ensures row * width + cols <= |s|
    ensures CountTrue(s[..row * width + cols]) == CountTrue(s[..row * width]) + RowTotal(s, width, height, Area, cols, row)
    decreases cols
  {
    IndexInRangeOrEdge(row, cols, width, height);
    if cols > 0 {
      CountTruePrefix(s, width, height, row, cols - 1);
      var n := row * width + cols;
      assert s[..n][..n - 1] == s[..n - 1];
      InGridIntro(cols - 1, row, width, height);
    }
  }

  lemma IndexInRangeOrEdge(row: int, cols: int, width: int, height: int)
    requires 0 <= row < height && 0 <= cols <= width
    ensures 0 <= row * width && row * width + cols <= width * height
  {
    MulLeq(row + 1, height, width);
    MulLeq(0, row, width);
  }

  lemma {:induction false} TotalNoRows(s: seq<bool>, width: int, height: int, k: Measure, cols: int)
    ensures Total(s, width, height, k, cols, 0) == 0
    decreases cols
  {
    if cols > 0 {
      TotalNoRows(s, width, height, k, cols - 1);
    }
  }

  /** Counting the selected cells column by column gives the population count of the bit sequence. */
  lemma {:induction false} AreaIsCountTrue(s: seq<bool>, width: int, height: int)
    requires 0 <= width && 0 <= height && |s| == width * height
    ensures SelectedArea(s, width, height) == CountTrue(s)
  {
    var r := 0;
    TotalNoRows(s, width, height, Area, width);
    while r < height
      invariant 0 <= r <= height
      invariant 0 <= r * width <= |s|
      invariant Total(s, width, height, Area, width, r) == CountTrue(s[..r * width])
    {
      TotalAddRow(s, width, height, Area, width, r);
      CountTruePrefix(s, width, height, r, width);
      r := r + 1;
      IndexInRangeOrEdge(r - 1, width, width, height);
    }
    assert s[..height * width] == s;
  }

  lemma {:induction false} ColumnBorderAtMostArea(s: seq<bool>, width: int, height: int, column: int, rows: int)
    requires 0 <= rows
    ensures 0 <= ColumnTotal(s, width, height, Border, column, rows) <= ColumnTotal(s, width, height, Area, column, rows)
    decreases rows
  {
    if rows > 0 {
      ColumnBorderAtMostArea(s, width, height, column, rows - 1);
    }
  }

  /** The border count never exceeds the area. */
  lemma {:induction false} BorderAtMostArea(s: seq<bool>, width: int, height: int, cols: int)
    requires 0 <= cols && 0 <= height
    ensures 0 <= Total(s, width, height, Border, cols, height) <= Total(s, width, height, Area, cols, height)
    decreases cols
  {
    if cols > 0 {
      BorderAtMostArea(s, width, height, cols - 1);
      ColumnBorderAtMostArea(s, width, height, cols - 1, height);
    }
  }

  lemma {:induction false} ColumnIndexBounds(s: seq<bool>, width: int, height: int, k: Measure, column: int, rows: int)
    requires k == ColumnIndex || k == RowIndex
    requires 0 <= rows
    ensures 0 <= ColumnTotal(s, width, height, k, column, rows)
    ensures ColumnTotal(s, width, height, k, column, rows)
            <= (if k == ColumnIndex then width - 1 else height - 1) * ColumnTotal(s, width, height, Area, column, rows)
    decreases rows
  {
    if rows > 0 {
      ColumnIndexBounds(s, width, height, k, column, rows - 1);
      var bound := if k == ColumnIndex then width - 1 else height - 1;
      var a := ColumnTotal(s, width, height, Area, column, rows - 1);
      var b := Weight(s, width, height, Area, column, rows - 1);
      assert Weight(s, width, height, k, column, rows - 1) <= bound * b;
      Distribute(bound, a, b);
    }
  }

  /** Sums of column (row) indices lie between 0 and (width - 1) (resp. (height - 1)) times the area. */
  lemma {:induction false} IndexSumBounds(s: seq<bool>, width: int, height: int, k: Measure, cols: int)
    requires k == ColumnIndex || k == RowIndex
    requires 0 <= cols && 0 <= height
    ensures 0 <= Total(s, width, height, k, cols, height)
    ensures Total(s, width, height, k, cols, height)
            <= (if k == ColumnIndex then width - 1 else height - 1) * Total(s, width, height, Area, cols, height)
    decreases cols
  {
    if cols > 0 {
      IndexSumBounds(s, width, height, k, cols - 1);
      ColumnIndexBounds(s, width, height, k, cols - 1, height);
      var bound := if k == ColumnIndex then width - 1 else height - 1;
      var a := Total(s, width, height, Area, cols - 1, height);
      var b := ColumnTotal(s, width, height, Area, cols - 1, height);
      Distribute(bound, a, b);
    }
  }

  lemma Distribute(k: int, a: int, b: int)
    ensures k * (a + b) == k * a + k * b
  {
  }

  /** Integer division of a sum bounded by (m * n) by a positive count n stays within [0, m]. */
  lemma QuotientBound(total: int, n: int, m: int)
    requires 0 < n && 0 <= total <= m * n
    ensures 0 <= total / n <= m
  {
    var q := total / n;
    assert q * n <= total;
    if q > m {
      MulLeq(m + 1, q, n);
      assert false;
    }
  }
}

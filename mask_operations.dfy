/**
  The mask algebra and the integer descriptors of MaskOperations: copying
  any mask into a dense one, complement, intersection, population count,
  the Add dispatch over the three representations, the centre of mass and
  the border count.
*/
module MaskOperations {
  import opened Wrappers
  import opened Grid
  import opened Masks

  /** Lines 265-284 for a present mask: a clone of a dense mask's bits, or a cell-by-cell copy of a view. */
  method CopyToMask(mask: IMask) returns (m: Mask)
    requires mask.Valid()
    ensures fresh(m.data) && m.Valid() && m.width == mask.Width() && m.height == mask.Height()
    ensures m.data[..] == mask.Cells()
  {
    var width := mask.Width();
    var height := mask.Height();
    if mask.Dense? {
      var source := mask.mask.data;
      var clone := new bool[source.Length](i requires 0 <= i < source.Length reads source => source[i]);
      m := new Mask(clone, width, height);
      return;
    }
    ghost var cells := mask.Cells();
    var bitArray := new bool[height * width];
    for x := 0 to width
      invariant forall c, row :: InGrid(c, row, width, height) && c < x ==> bitArray[Index(c, row, width)] == cells[Index(c, row, width)]
    {
      for y := 0 to height
        invariant forall c, row :: InGrid(c, row, width, height) && (c < x || (c == x && row < y)) ==>
                    bitArray[Index(c, row, width)] == cells[Index(c, row, width)]
      {
        InGridIntro(x, y, width, height);
        OthersDistinct(x, y, width, height);
        var index := y * width + x;
        bitArray[index] := mask.GetCell(x, y);
      }
    }
    CellwiseEqual(bitArray[..], cells, width, height);
    m := new Mask(bitArray, width, height);
  }

  /** ToMask (lines 260-285): a fresh dense mask with the same cells; a missing mask is rejected. */
  method ToMask(mask: Option<IMask>) returns (r: Result<Mask>)
    requires mask.Some? ==> mask.value.Valid()
    ensures mask.None? ==> r == Err(ArgumentNull)
    ensures mask.Some? ==>
              r.Ok? && fresh(r.value.data) && r.value.Valid() &&
              r.value.width == mask.value.Width() && r.value.height == mask.value.Height() &&
              r.value.data[..] == mask.value.Cells()
  {
    if mask.None? {
      return Err(ArgumentNull);
    }
    var m := CopyToMask(mask.value);
    r := Ok(m);
  }

  /** Invert (lines 294-308): a fresh dense mask holding the cell-wise negation. */
  method Invert(mask: Option<IMask>) returns (r: Result<IMask>)
    requires mask.Some? ==> mask.value.Valid()
    ensures mask.None? ==> r == Err(ArgumentNull)
    ensures mask.Some? ==>
              r.Ok? && r.value.Dense? && fresh(r.value.mask.data) && r.value.Valid() &&
              r.value.Width() == mask.value.Width() && r.value.Height() == mask.value.Height() &&
              r.value.Cells() == Complement(mask.value.Cells())
  {
    if mask.None? {
      return Err(ArgumentNull);
    }
    ghost var cells := mask.value.Cells();
    var copy := CopyToMask(mask.value);
    var bits := copy.data;
    NegateAll(bits);
    var inverted := new Mask(bits, copy.width, copy.height);
    assert inverted.data[..] == Complement(cells);
    r := Ok(Dense(inverted));
  }

  /** BitArray.Not: every bit of the array flipped in place. */
  method NegateAll(bits: array<bool>)
    modifies bits
    ensures bits[..] == Complement(old(bits[..]))
  {
    forall i | 0 <= i < bits.Length {
      bits[i] := !bits[i];
    }
  }

  /** Inverting twice gives back the cells. */
  lemma InvertInvolution(cells: seq<bool>)
    ensures Complement(Complement(cells)) == cells
  {
  }

  /**
    And (lines 362-382): a fresh dense mask with the cell-wise conjunction and
    the first mask's shape. BitArray.And rejects bit arrays of different lengths.
  */
  method And(mask: Option<IMask>, secondMask: Option<IMask>) returns (r: Result<IMask>)
    requires mask.Some? ==> mask.value.Valid()
    requires secondMask.Some? ==> secondMask.value.Valid()
    ensures mask.None? ==> r == Err(ArgumentNull)
    ensures mask.Some? && secondMask.None? ==> r == Err(ArgumentNull)
    ensures mask.Some? && secondMask.Some? && |mask.value.Cells()| != |secondMask.value.Cells()| ==> r == Err(Argument)
    ensures mask.Some? && secondMask.Some? && |mask.value.Cells()| == |secondMask.value.Cells()| ==>
              r.Ok? && r.value.Dense? && fresh(r.value.mask.data) && r.value.Valid() &&
              r.value.Width() == mask.value.Width() && r.value.Height() == mask.value.Height() &&
              r.value.Cells() == Intersection(mask.value.Cells(), secondMask.value.Cells())
  {
    if mask.None? || secondMask.None? {
      return Err(ArgumentNull);
    }
    label Start:
    ghost var first := mask.value.Cells();
    ghost var second := secondMask.value.Cells();
    var two := CopyToMask(secondMask.value);
    var one := CopyToMask(mask.value);
    if one.data.Length != two.data.Length {
      return Err(Argument);
    }
    var bits := one.data;
    ConjoinAll(bits, two.data);
    var conjunction := new Mask(bits, one.width, one.height);
    CellsKept@Start(mask.value);
    CellsKept@Start(secondMask.value);
    r := Ok(Dense(conjunction));
    assert r.value.Cells() == conjunction.data[..];
  }

  /** BitArray.And on arrays of one length: each bit of `bits` conjoined in place with the same bit of `other`. */
  method ConjoinAll(bits: array<bool>, other: array<bool>)
    requires bits != other && bits.Length == other.Length
    modifies bits
    ensures bits[..] == Intersection(old(bits[..]), other[..])
  {
    forall i | 0 <= i < bits.Length {
      bits[i] := bits[i] && other[i];
    }
  }

  /** The conjunction of cells does not depend on the order of the operands, nor on their grouping. */
  lemma AndCommutes(a: seq<bool>, b: seq<bool>)
    requires |a| == |b|
    ensures Intersection(a, b) == Intersection(b, a)
  {
  }

  lemma AndAssociates(a: seq<bool>, b: seq<bool>, c: seq<bool>)
    requires |a| == |b| == |c|
    ensures Intersection(Intersection(a, b), c) == Intersection(a, Intersection(b, c))
  {
  }

  /** Sum (lines 317-353): the number of set cells, counted bit by bit. */
  method Sum(mask: Option<IMask>) returns (r: Result<int>)
    requires mask.Some? ==> mask.value.Valid()
    ensures mask.None? ==> r == Err(ArgumentNull)
    ensures mask.Some? ==> r == Ok(CountTrue(mask.value.Cells()))
    ensures mask.Some? ==> r.value == SelectedArea(mask.value.Cells(), mask.value.Width(), mask.value.Height())
    ensures mask.Some? ==> 0 <= r.value <= |mask.value.Cells()|
  {
    if mask.None? {
      return Err(ArgumentNull);
    }
    var concrete: Mask;
    if mask.value.Dense? {
      concrete := mask.value.mask;
    } else {
      concrete := CopyToMask(mask.value);
    }
    var bits := concrete.data;
    var count := 0;
    for i := 0 to bits.Length
      invariant count == CountTrue(bits[..i])
    {
      assert bits[..i + 1][..i] == bits[..i];
      if bits[i] {
        count := count + 1;
      }
    }
    assert bits[..bits.Length] == bits[..];
    AreaIsCountTrue(mask.value.Cells(), mask.value.Width(), mask.value.Height());
    r := Ok(count);
  }

  /**
    Add (lines 392-415): two single-label views or a view and a dense mask go
    to SplitMask.Combine, two dense masks or a dense mask and a view to
    Mask.Combine; any pair with a label-set view is not supported.
  */
  method Add(mask: Option<IMask>, adder: Option<IMask>) returns (r: Result<IMask>)
    requires mask.Some? ==> mask.value.Valid()
    requires adder.Some? ==> adder.value.Valid()
    requires mask.Some? && adder.Some? && mask.value.Split? ==>
               adder.value.Width() == mask.value.Width() && adder.value.Height() == mask.value.Height()
    ensures adder.None? || mask.None? ==> r == Err(ArgumentNull)
    ensures mask.Some? && adder.Some? && (mask.value.Group? || adder.value.Group?) ==> r == Err(NotSupported)
    ensures mask.Some? && adder.Some? && mask.value.Split? && adder.value.Split? && adder.value.split.plane == mask.value.split.plane ==>
              r == Ok(Group(GroupSplitMask(mask.value.split.plane, {mask.value.split.value, adder.value.split.value},
                                           mask.value.Width(), mask.value.Height())))
    ensures mask.Some? && adder.Some? && mask.value.Split? && !adder.value.Group? &&
            !(adder.value.Split? && adder.value.split.plane == mask.value.split.plane) ==>
              r.Ok? && r.value.Dense? && fresh(r.value.mask.data) && r.value.Valid() &&
              r.value.Width() == mask.value.Width() && r.value.Height() == mask.value.Height() &&
              r.value.Cells() == Union(LabelCells(mask.value.split.plane[..], 0), adder.value.Cells())
    ensures mask.Some? && adder.Some? && mask.value.Dense? && adder.value.Dense? ==>
              if |mask.value.Cells()| == |adder.value.Cells()|
              then r.Ok? && r.value.Dense? && fresh(r.value.mask.data) && r.value.Valid() &&
                   r.value.Width() == mask.value.Width() && r.value.Height() == mask.value.Height() &&
                   r.value.Cells() == Union(mask.value.Cells(), adder.value.Cells())
              else r == Err(Argument)
    ensures mask.Some? && adder.Some? && mask.value.Dense? && adder.value.Split? ==> r == Err(NullReference)
  {
    if adder.None? || mask.None? {
      return Err(ArgumentNull);
    }
    var m := mask.value;
    var a := adder.value;
    if m.Split? && a.Split? {
      r := m.split.Combine(adder);
    } else if m.Dense? && a.Dense? {
      r := m.mask.Combine(adder);
    } else if m.Split? && a.Dense? {
      r := m.split.Combine(adder);
    } else if a.Split? && m.Dense? {
      r := m.mask.Combine(adder);
    } else {
      r := Err(NotSupported);
    }
  }

  /** The centre of mass: the integer means of the selected cells' columns and rows; no selected cell divides by zero. */
  function CentroidOf(cells: seq<bool>, width: int, height: int): (r: Result<Point>)
    requires 0 <= width && 0 <= height
    ensures r.Err? <==> SelectedArea(cells, width, height) == 0
    ensures r.Err? ==> r.error == DivideByZero
    ensures r.Ok? ==> InGrid(r.value.x, r.value.y, width, height)
  {
    var n := SelectedArea(cells, width, height);
    if n == 0 then Err(DivideByZero)
    else
      var xSum := Total(cells, width, height, ColumnIndex, width, height);
      var ySum := Total(cells, width, height, RowIndex, width, height);
      IndexSumBounds(cells, width, height, ColumnIndex, width);
      IndexSumBounds(cells, width, height, RowIndex, width);
      BorderAtMostArea(cells, width, height, width);
      QuotientBound(xSum, n, width - 1);
      QuotientBound(ySum, n, height - 1);
      InGridIntro(xSum / n, ySum / n, width, height);
      Ok(Point(xSum / n, ySum / n))
  }

  /** Centroid (lines 514-539): the column-major accumulation agrees with CentroidOf. */
  method Centroid(mask: IMask) returns (r: Result<Point>)
    requires mask.Valid()
    ensures r == CentroidOf(mask.Cells(), mask.Width(), mask.Height())
  {
    var width := mask.Width();
    var height := mask.Height();
    ghost var cells := mask.Cells();
    var points := 0;
    var xSum := 0;
    var ySum := 0;
    for x := 0 to width
      invariant points == Total(cells, width, height, Area, x, height)
      invariant xSum == Total(cells, width, height, ColumnIndex, x, height)
      invariant ySum == Total(cells, width, height, RowIndex, x, height)
    {
      for y := 0 to height
        invariant points == Total(cells, width, height, Area, x, height) + ColumnTotal(cells, width, height, Area, x, y)
        invariant xSum == Total(cells, width, height, ColumnIndex, x, height) + ColumnTotal(cells, width, height, ColumnIndex, x, y)
        invariant ySum == Total(cells, width, height, RowIndex, x, height) + ColumnTotal(cells, width, height, RowIndex, x, y)
      {
        InGridIntro(x, y, width, height);
        if mask.GetCell(x, y) {
          xSum := xSum + x;
          ySum := ySum + y;
          points := points + 1;
        }
      }
    }
    if points == 0 {
      return Err(DivideByZero);
    }
    r := Ok(Point(xSum / points, ySum / points));
  }

  /** Perimeter (lines 651-689): the number of selected cells with an unselected or missing 4-neighbour. */
  method Perimeter(mask: IMask) returns (perimeter: int)
    requires mask.Valid()
    ensures perimeter == Total(mask.Cells(), mask.Width(), mask.Height(), Border, mask.Width(), mask.Height())
    ensures 0 <= perimeter <= SelectedArea(mask.Cells(), mask.Width(), mask.Height())
  {
    var width := mask.Width();
    var height := mask.Height();
    ghost var cells := mask.Cells();
    perimeter := 0;
    for x := 0 to width
      invariant perimeter == Total(cells, width, height, Border, x, height)
    {
      for y := 0 to height
        invariant perimeter == Total(cells, width, height, Border, x, height) + ColumnTotal(cells, width, height, Border, x, y)
      {
        InGridIntro(x, y, width, height);
        if mask.GetCell(x, y) {
          var increment := BorderIncrement(mask, x, y);
          perimeter := perimeter + increment;
        }
      }
    }
    BorderAtMostArea(cells, width, height, width);
  }

  /** Lines 663-680: one when some left, right, upper or lower neighbour of a selected cell is outside the grid or unselected. */
  method BorderIncrement(mask: IMask, x: int, y: int) returns (increment: int)
    requires mask.Valid() && InGrid(x, y, mask.Width(), mask.Height()) && mask.GetCell(x, y)
    ensures increment == Weight(mask.Cells(), mask.Width(), mask.Height(), Border, x, y)
  {
    var width := mask.Width();
    var height := mask.Height();
    ghost var cells := mask.Cells();
    assert Selected(cells, width, height, x, y);
    ghost var left := !Selected(cells, width, height, x - 1, y);
    ghost var right := !Selected(cells, width, height, x + 1, y);
    increment := 0;
    for adjacentX := x - 1 to x + 2
      invariant increment == (if (x - 1 < adjacentX && left) || (x + 1 < adjacentX && right) then 1 else 0)
    {
      var unset := Unselected(mask, adjacentX, y);
      if unset {
        increment := 1;
      }
    }
    for adjacentY := y - 1 to y + 2
      invariant increment == (if left || right || (y - 1 < adjacentY && !Selected(cells, width, height, x, y - 1)) ||
                                 (y + 1 < adjacentY && !Selected(cells, width, height, x, y + 1)) then 1 else 0)
    {
      var unset := Unselected(mask, x, adjacentY);
      if unset {
        increment := 1;
      }
    }
  }

  /** The border test on one neighbour (lines 665-678): outside the grid, or inside and unselected. */
  method Unselected(mask: IMask, column: int, row: int) returns (unset: bool)
    requires mask.Valid()
    ensures unset == !Selected(mask.Cells(), mask.Width(), mask.Height(), column, row)
  {
    if column < 0 || column >= mask.Width() || row < 0 || row >= mask.Height() {
      return true;
    }
    InGridIntro(column, row, mask.Width(), mask.Height());
    unset := !mask.GetCell(column, row);
  }
}

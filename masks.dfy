/**
  The three mask representations behind the IMask contract (Width, Height,
  GetCell): a dense bit grid that can be changed in place, a single-label
  view into a shared integer label plane, and a label-set view into such a
  plane. All three address cell (column, row) at row-major position
  `row * Width + column`; the views keep the plane by reference.
*/
module Masks {
  import opened Wrappers
  import opened Grid

  /** Cell-wise union, intersection and complement of row-major bit grids. */
  function Union(a: seq<bool>, b: seq<bool>): (r: seq<bool>)
    requires |a| == |b|
    ensures |r| == |a| && forall i :: 0 <= i < |a| ==> (r[i] <==> a[i] || b[i])
  {
    seq(|a|, i requires 0 <= i < |a| => a[i] || b[i])
  }

  function Intersection(a: seq<bool>, b: seq<bool>): (r: seq<bool>)
    requires |a| == |b|
    ensures |r| == |a| && forall i :: 0 <= i < |a| ==> (r[i] <==> a[i] && b[i])
  {
    seq(|a|, i requires 0 <= i < |a| => a[i] && b[i])
  }

  function Complement(a: seq<bool>): (r: seq<bool>)
    ensures |r| == |a| && forall i :: 0 <= i < |a| ==> (r[i] <==> !a[i])
  {
    seq(|a|, i requires 0 <= i < |a| => !a[i])
  }

  /** The cells a single-label view selects: the positions of the plane holding `target`. */
  function LabelCells(plane: seq<int>, target: int): (r: seq<bool>)
    ensures |r| == |plane| && forall i :: 0 <= i < |plane| ==> (r[i] <==> plane[i] == target)
  {
    seq(|plane|, i requires 0 <= i < |plane| => plane[i] == target)
  }

  /** The cells a label-set view selects: the positions of the plane holding one of `labels`. */
  function LabelSetCells(plane: seq<int>, labels: set<int>): (r: seq<bool>)
    ensures |r| == |plane| && forall i :: 0 <= i < |plane| ==> (r[i] <==> plane[i] in labels)
  {
    seq(|plane|, i requires 0 <= i < |plane| => plane[i] in labels)
  }

  /** The dense mask: a bit array that SetCell changes in place; Width and Height never change. */
  class Mask {
    const data: array<bool>
    const width: int
    const height: int

    /** Stores the bit array by reference; its length is not checked against width * height. */
    constructor (maskData: array<bool>, width: int, height: int)
      ensures data == maskData && this.width == width && this.height == height
    {
      data := maskData;
      this.width := width;
      this.height := height;
    }

    /** The shape every operation on a mask relies on (the constructor does not enforce it). */
    predicate Valid()
    {
      0 <= width && 0 <= height && data.Length == width * height
    }

    function GetCell(column: int, row: int): (b: bool)
      reads data
      requires Valid() && InGrid(column, row, width, height)
      ensures 0 <= Index(column, row, width) < data.Length && b == data[Index(column, row, width)]
    {
      data[Index(column, row, width)]
    }

    method SetCell(column: int, row: int, value: bool)
      requires Valid() && InGrid(column, row, width, height)
      modifies data
      ensures 0 <= Index(column, row, width) < data.Length
      ensures data[..] == old(data[..])[Index(column, row, width) := value]
      ensures GetCell(column, row) == value
      ensures forall c, r :: InGrid(c, r, width, height) && (c != column || r != row) ==> GetCell(c, r) == old(GetCell(c, r))
    {
      OthersDistinct(column, row, width, height);
      data[Index(column, row, width)] := value;
    }

    /**
      Add for a dense receiver, as written: the guard tests `mask` (never null
      there) instead of `normalMask`, so every argument takes the OR branch and
      a non-dense argument is dereferenced as a null dense mask.
    */
    method Combine(mask: Option<IMask>) returns (r: Result<IMask>)
      requires Valid()
      requires mask.Some? ==> mask.value.Valid()
      ensures mask.None? ==> r == Err(ArgumentNull)
      ensures mask.Some? && !mask.value.Dense? ==> r == Err(NullReference)
      ensures mask.Some? && mask.value.Dense? && mask.value.mask.data.Length != data.Length ==> r == Err(Argument)
      ensures mask.Some? && mask.value.Dense? && mask.value.mask.data.Length == data.Length ==>
                r.Ok? && r.value.Dense? && r.value.mask.Valid() && r.value.mask.width == width && r.value.mask.height == height &&
                r.value.mask.data[..] == Union(data[..], mask.value.mask.data[..])
      ensures r.Ok? ==> fresh(r.value.mask.data)
    {
      if mask.None? {
        return Err(ArgumentNull);
      }
      if !mask.value.Dense? {
        return Err(NullReference);
      }
      r := OrWith(mask.value.mask);
    }

    /** Add for a dense receiver as evidently intended: the scan branch is live for view arguments. */
    method CombineCorrected(mask: Option<IMask>) returns (r: Result<IMask>)
      requires Valid()
      requires mask.Some? ==> mask.value.Valid() && mask.value.Width() == width && mask.value.Height() == height
      ensures mask.None? ==> r == Err(ArgumentNull)
      ensures mask.Some? ==>
                r.Ok? && r.value.Dense? && r.value.mask.Valid() &&
                r.value.mask.width == width && r.value.mask.height == height &&
                r.value.Cells() == Union(data[..], mask.value.Cells())
      ensures r.Ok? ==> fresh(r.value.mask.data)
    {
      if mask.None? {
        return Err(ArgumentNull);
      }
      var other := mask.value;
      if other.Dense? {
        r := OrWith(other.mask);
        return;
      }
      var maskData := new bool[height * width];
      ghost var spec := Union(data[..], other.Cells());
      for x := 0 to width
        invariant forall c, row :: InGrid(c, row, width, height) && c < x ==> maskData[Index(c, row, width)] == spec[Index(c, row, width)]
      {
        for y := 0 to height
          invariant forall c, row :: InGrid(c, row, width, height) && (c < x || (c == x && row < y)) ==>
                      maskData[Index(c, row, width)] == spec[Index(c, row, width)]
        {
          InGridIntro(x, y, width, height);
          OthersDistinct(x, y, width, height);
          var index := y * width + x;
          maskData[index] := data[index] || other.GetCell(x, y);
        }
      }
      CellwiseEqual(maskData[..], spec, width, height);
      var m := new Mask(maskData, width, height);
      r := Ok(Dense(m));
    }

    /** `((BitArray)_maskData.Clone()).Or(other)`: BitArray.Or rejects operands of different lengths. */
    method OrWith(other: Mask) returns (r: Result<IMask>)
      requires Valid() && other.Valid()
      ensures other.data.Length != data.Length ==> r == Err(Argument)
      ensures other.data.Length == data.Length ==>
                r.Ok? && r.value.Dense? && r.value.mask.Valid() && r.value.mask.width == width && r.value.mask.height == height &&
                r.value.mask.data[..] == Union(data[..], other.data[..])
      ensures r.Ok? ==> fresh(r.value.mask.data)
    {
      if other.data.Length != data.Length {
        return Err(Argument);
      }
      var clone := new bool[data.Length](i requires 0 <= i < data.Length reads data => data[i]);
      forall i | 0 <= i < clone.Length {
        clone[i] := clone[i] || other.data[i];
      }
      var m := new Mask(clone, width, height);
      r := Ok(Dense(m));
    }
  }

  /** The Mask constructor: rejects null data; keeps the array by reference without checking its length. */
  method NewMask(maskData: array?<bool>, width: int, height: int) returns (r: Result<Mask>)
    ensures maskData == null ==> r == Err(ArgumentNull)
    ensures maskData != null ==>
              r.Ok? && fresh(r.value) && r.value.data == maskData && r.value.width == width && r.value.height == height
  {
    if maskData == null {
      return Err(ArgumentNull);
    }
    var m := new Mask(maskData, width, height);
    r := Ok(m);
  }

  /**
    The fallback scan as written selects an unlabelled cell: on a one-cell
    plane holding 0, the view of label 1 combined with an empty mask has its
    only cell selected, although neither operand selects it.
  */
  lemma ScanSelectsUnlabelledCell()
    ensures LabelCells([0], 1) == [false]
    ensures Union(LabelCells([0], 0), [false]) == [true]
    ensures Union(LabelCells([0], 1), [false]) == [false]
  {
    assert LabelCells([0], 0)[0];
    assert !LabelCells([0], 1)[0];
  }

  /** A single-label view: the cells of the shared plane that hold `value`. */
  datatype SplitMask = SplitMask(plane: array<int>, value: int, width: int, height: int) {

    predicate Valid()
    {
      0 <= width && 0 <= height && plane.Length == width * height
    }

    function GetCell(column: int, row: int): (b: bool)
      reads plane
      requires Valid() && InGrid(column, row, width, height)
      ensures 0 <= Index(column, row, width) < plane.Length
      ensures b <==> plane[Index(column, row, width)] == value
    {
      plane[Index(column, row, width)] == value
    }

    /** Whether both views read the very same plane (reference equality); a null argument is rejected. */
    function CheckIfSameReferenceType(splitMask: Option<SplitMask>): (r: Result<bool>)
      ensures r.Err? <==> splitMask.None?
      ensures r.Err? ==> r.error == ArgumentNull
      ensures r.Ok? ==> (r.value <==> plane == splitMask.value.plane)
    {
      if splitMask.None? then Err(ArgumentNull) else Ok(plane == splitMask.value.plane)
    }

    /**
      Add for a single-label receiver, as written. Two views of one plane give a
      label-set view without any scan; otherwise a dense mask is built, and its
      cell is `plane cell == 0 || other cell`, where `== value` was intended.
    */
    method Combine(mask: Option<IMask>) returns (r: Result<IMask>)
      requires Valid()
      requires mask.Some? ==> mask.value.Valid() && mask.value.Width() == width && mask.value.Height() == height
      ensures mask.None? ==> r == Err(ArgumentNull)
      ensures mask.Some? && mask.value.Split? && mask.value.split.plane == plane ==>
                r == Ok(Group(GroupSplitMask(plane, {value, mask.value.split.value}, width, height)))
      ensures mask.Some? && !(mask.value.Split? && mask.value.split.plane == plane) ==>
                r.Ok? && r.value.Dense? && r.value.mask.Valid() && fresh(r.value.mask.data) &&
                r.value.mask.width == width && r.value.mask.height == height &&
                r.value.Cells() == Union(LabelCells(plane[..], 0), mask.value.Cells())
    {
      r := CombineWith(mask, 0);
    }

    /** Add for a single-label receiver as evidently intended: the fallback scan tests `== value`. */
    method CombineCorrected(mask: Option<IMask>) returns (r: Result<IMask>)
      requires Valid()
      requires mask.Some? ==> mask.value.Valid() && mask.value.Width() == width && mask.value.Height() == height
      ensures mask.None? ==> r == Err(ArgumentNull)
      ensures mask.Some? && mask.value.Split? && mask.value.split.plane == plane ==>
                r == Ok(Group(GroupSplitMask(plane, {value, mask.value.split.value}, width, height)))
      ensures mask.Some? && !(mask.value.Split? && mask.value.split.plane == plane) ==>
                r.Ok? && r.value.Dense? && r.value.mask.Valid() && fresh(r.value.mask.data) &&
                r.value.mask.width == width && r.value.mask.height == height &&
                r.value.Cells() == Union(Split(this).Cells(), mask.value.Cells())
    {
      r := CombineWith(mask, value);
    }

    /** The Combine code with the label its fallback scan compares plane cells against as a parameter. */
    method CombineWith(mask: Option<IMask>, scanLabel: int) returns (r: Result<IMask>)
      requires Valid()
      requires mask.Some? ==> mask.value.Valid() && mask.value.Width() == width && mask.value.Height() == height
      ensures mask.None? ==> r == Err(ArgumentNull)
      ensures mask.Some? && mask.value.Split? && mask.value.split.plane == plane ==>
                r == Ok(Group(GroupSplitMask(plane, {value, mask.value.split.value}, width, height)))
      ensures mask.Some? && !(mask.value.Split? && mask.value.split.plane == plane) ==>
                r.Ok? && r.value.Dense? && r.value.mask.Valid() && fresh(r.value.mask.data) &&
                r.value.mask.width == width && r.value.mask.height == height &&
                r.value.Cells() == Union(LabelCells(plane[..], scanLabel), mask.value.Cells())
    {
      if mask.None? {
        return Err(ArgumentNull);
      }
      var other := mask.value;
      if other.Split? && other.split.plane == plane {
        return Ok(Group(GroupSplitMask(plane, {value, other.split.value}, width, height)));
      }
      var m := FallbackScan(other, scanLabel);
      r := Ok(Dense(m));
    }

    /** The fallback of Combine: a dense mask whose cell is `plane cell == scanLabel || other cell`. */
    method FallbackScan(other: IMask, scanLabel: int) returns (m: Mask)
      requires Valid() && other.Valid() && other.Width() == width && other.Height() == height
      ensures m.Valid() && fresh(m.data) && m.width == width && m.height == height
      ensures m.data[..] == Union(LabelCells(plane[..], scanLabel), other.Cells())
    {
      var maskData := new bool[height * width];
      ghost var spec := Union(LabelCells(plane[..], scanLabel), other.Cells());
      for x := 0 to width
        invariant forall c, row :: InGrid(c, row, width, height) && c < x ==> maskData[Index(c, row, width)] == spec[Index(c, row, width)]
      {
        for y := 0 to height
          invariant forall c, row :: InGrid(c, row, width, height) && (c < x || (c == x && row < y)) ==>
                      maskData[Index(c, row, width)] == spec[Index(c, row, width)]
        {
          InGridIntro(x, y, width, height);
          OthersDistinct(x, y, width, height);
          var index := y * width + x;
          maskData[index] := plane[index] == scanLabel || other.GetCell(x, y);
        }
      }
      CellwiseEqual(maskData[..], spec, width, height);
      m := new Mask(maskData, width, height);
    }
  }

  /** The SplitMask constructor: rejects a null plane and keeps the plane by reference. */
  function NewSplitMask(mask: array?<int>, value: int, width: int, height: int): (r: Result<SplitMask>)
    ensures r.Err? <==> mask == null
    ensures r.Err? ==> r.error == ArgumentNull
    ensures r.Ok? ==> r.value.plane == mask && r.value.value == value && r.value.width == width && r.value.height == height
  {
    if mask == null then Err(ArgumentNull) else Ok(SplitMask(mask, value, width, height))
  }

  /** A label-set view: the cells of the shared plane holding any of `values`. */
  datatype GroupSplitMask = GroupSplitMask(plane: array<int>, values: set<int>, width: int, height: int) {

    predicate Valid()
    {
      0 <= width && 0 <= height && plane.Length == width * height
    }

    function GetCell(column: int, row: int): (b: bool)
      reads plane
      requires Valid() && InGrid(column, row, width, height)
      ensures 0 <= Index(column, row, width) < plane.Length
      ensures b <==> plane[Index(column, row, width)] in values
    {
      plane[Index(column, row, width)] in values
    }
  }

  /**
    The GroupSplitMask constructor: rejects a null plane or null labels, copies
    the labels into a set and keeps the plane by reference. Nothing checks that
    the labels are positive or occur in the plane.
  */
  function NewGroupSplitMask(mask: array?<int>, values: Option<seq<int>>, width: int, height: int): (r: Result<GroupSplitMask>)
    ensures r.Err? <==> mask == null || values.None?
    ensures r.Err? ==> r.error == ArgumentNull
    ensures r.Ok? ==> r.value.plane == mask && r.value.width == width && r.value.height == height &&
                      forall v :: v in r.value.values <==> v in values.value
  {
    if mask == null || values.None? then Err(ArgumentNull)
    else Ok(GroupSplitMask(mask, (set v | v in values.value :: v), width, height))
  }

  /** The labels' order and repetitions do not matter: only which labels occur. */
  lemma GroupLabelsAsSet(mask: array<int>, v1: seq<int>, v2: seq<int>, width: int, height: int)
    requires forall v :: v in v1 <==> v in v2
    ensures NewGroupSplitMask(mask, Some(v1), width, height) == NewGroupSplitMask(mask, Some(v2), width, height)
  {
    var s1 := set v | v in v1 :: v;
    var s2 := set v | v in v2 :: v;
    assert forall v :: v in s1 <==> v in s2;
    assert s1 == s2;
  }

  /** IMask: a closed sum of the three representations. */
  datatype IMask = Dense(mask: Mask) | Split(split: SplitMask) | Group(group: GroupSplitMask) {

    function Width(): int
    {
      match this
      case Dense(m) => m.width
      case Split(s) => s.width
      case Group(g) => g.width
    }

    function Height(): int
    {
      match this
      case Dense(m) => m.height
      case Split(s) => s.height
      case Group(g) => g.height
    }

    /** The array the mask reads its cells from. */
    function Repr(): set<object>
    {
      match this
      case Dense(m) => {m.data as object}
      case Split(s) => {s.plane}
      case Group(g) => {g.plane}
    }

    predicate Valid()
    {
      match this
      case Dense(m) => m.Valid()
      case Split(s) => s.Valid()
      case Group(g) => g.Valid()
    }

    function GetCell(column: int, row: int): bool
      reads Repr()
      requires Valid() && InGrid(column, row, Width(), Height())
    {
      match this
      case Dense(m) => m.GetCell(column, row)
      case Split(s) => s.GetCell(column, row)
      case Group(g) => g.GetCell(column, row)
    }

    /** All cells in row-major order; position `Index(c, r, Width())` holds `GetCell(c, r)`. */
    function Cells(): (s: seq<bool>)
      reads Repr()
      requires Valid()
      ensures |s| == Width() * Height()
      ensures forall c, r :: InGrid(c, r, Width(), Height()) ==> s[Index(c, r, Width())] == GetCell(c, r)
    {
      match this
      case Dense(m) => m.data[..]
      case Split(s) => LabelCells(s.plane[..], s.value)
      case Group(g) => LabelSetCells(g.plane[..], g.values)
    }
  }

  /** A view whose arrays are untouched between two states reads the same cells in both. */
  twostate lemma CellsKept(m: IMask)
    requires m.Valid() && unchanged(m.Repr())
    ensures m.Valid() && m.Cells() == old(m.Cells())
  {
  }

  /** Two single-label views of one plane combine into the view of both labels: the union of their cells. */
  lemma GroupOfTwoIsUnion(a: SplitMask, b: SplitMask)
    requires a.Valid() && b.Valid() && a.plane == b.plane && a.width == b.width && a.height == b.height
    ensures Group(GroupSplitMask(a.plane, {a.value, b.value}, a.width, a.height)).Cells()
            == Union(Split(a).Cells(), Split(b).Cells())
  {
  }
}

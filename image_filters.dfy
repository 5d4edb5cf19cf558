/**
  The glue between masks and bitmaps: a filter that builds a mask from a
  per-pixel predicate, and two filters that recolour the selected (resp.
  unselected) pixels of a bitmap in place, or of a copy. A bitmap is a
  two-dimensional colour array addressed as `bitmap[x, y]`, with its width
  as the first dimension and its height as the second.
*/
module ImageFilters {
  import opened Wrappers
  import opened Grid
  import opened Masks

  /** A System.Drawing.Color: alpha, red, green and blue components. */
  datatype Color = Color(alpha: int, red: int, green: int, blue: int)

  /** The pixels of a bitmap, column by column: `image[x][y]` is the pixel at (x, y). */
  type Image = seq<seq<Color>>

  ghost predicate Shaped(image: Image, width: int, height: int)
  {
    |image| == width && forall x :: 0 <= x < |image| ==> |image[x]| == height
  }

  ghost function Pixels(bitmap: array2<Color>): (image: Image)
    reads bitmap
    ensures Shaped(image, bitmap.Length0, bitmap.Length1)
    ensures forall x, y :: 0 <= x < bitmap.Length0 && 0 <= y < bitmap.Length1 ==> image[x][y] == bitmap[x, y]
  {
    seq(bitmap.Length0, x requires 0 <= x < bitmap.Length0 reads bitmap =>
      seq(bitmap.Length1, y requires 0 <= y < bitmap.Length1 reads bitmap => bitmap[x, y]))
  }

  /** Two images of one shape that agree pixel by pixel are equal. */
  lemma PixelwiseEqual(a: Image, b: Image, width: int, height: int)
    requires Shaped(a, width, height) && Shaped(b, width, height)
    requires forall x, y :: 0 <= x < width && 0 <= y < height ==> a[x][y] == b[x][y]
    ensures a == b
  {
    forall x | 0 <= x < width
      ensures a[x] == b[x]
    {
      assert |a[x]| == |b[x]| == height;
      assert forall y :: 0 <= y < height ==> a[x][y] == b[x][y];
    }
  }

  /**
    The image with every pixel whose cell is selected (when `selected` holds)
    or unselected (when it does not) replaced by `color`.
  */
  ghost function Recoloured(image: Image, cells: seq<bool>, width: int, height: int, selected: bool, color: Color): (r: Image)
    requires Shaped(image, width, height) && 0 <= height
    ensures Shaped(r, width, height)
    ensures forall x, y :: 0 <= x < width && 0 <= y < height ==>
              r[x][y] == (if Selected(cells, width, height, x, y) == selected then color else image[x][y])
  {
    seq(width, x requires 0 <= x < width =>
      seq(height, y requires 0 <= y < height =>
        if Selected(cells, width, height, x, y) == selected then color else image[x][y]))
  }

  /** Recolouring twice with the same mask and colour is recolouring once. */
  lemma RecolouredIdempotent(image: Image, cells: seq<bool>, width: int, height: int, selected: bool, color: Color)
    requires Shaped(image, width, height) && 0 <= height
    ensures var once := Recoloured(image, cells, width, height, selected, color);
            Recoloured(once, cells, width, height, selected, color) == once
  {
    var once := Recoloured(image, cells, width, height, selected, color);
    PixelwiseEqual(Recoloured(once, cells, width, height, selected, color), once, width, height);
  }

  /** Painting the unselected pixels is painting the selected pixels of the complement mask. */
  lemma NonMaskIsMaskOfComplement(image: Image, cells: seq<bool>, width: int, height: int, color: Color)
    requires Shaped(image, width, height) && 0 <= width && 0 <= height && |cells| == width * height
    ensures Recoloured(image, cells, width, height, false, color) == Recoloured(image, Complement(cells), width, height, true, color)
  {
    forall x, y | 0 <= x < width && 0 <= y < height
      ensures Selected(cells, width, height, x, y) == !Selected(Complement(cells), width, height, x, y)
    {
      InGridIntro(x, y, width, height);
    }
    PixelwiseEqual(Recoloured(image, cells, width, height, false, color),
                   Recoloured(image, Complement(cells), width, height, true, color), width, height);
  }

  // MaskFromFunctionFilter

  /** The filter keeps the predicate it was built with. */
  datatype MaskFromFunctionFilter = MaskFromFunctionFilter(maskingFunction: Color -> bool)

  /** The constructor rejects a null predicate. */
  function NewMaskFromFunctionFilter(maskingFunction: Option<Color -> bool>): (r: Result<MaskFromFunctionFilter>)
    ensures r.Err? <==> maskingFunction.None?
    ensures r.Err? ==> r.error == ArgumentNull
    ensures r.Ok? ==> r.value.maskingFunction == maskingFunction.value
  {
    if maskingFunction.None? then Err(ArgumentNull) else Ok(MaskFromFunctionFilter(maskingFunction.value))
  }

  /**
    Apply: a fresh dense mask of the bitmap's shape whose cell (x, y) holds
    the predicate's value on pixel (x, y); a null bitmap is rejected.
  */
  method MaskFromFunction(filter: MaskFromFunctionFilter, bitmap: array2?<Color>) returns (r: Result<IMask>)
    ensures bitmap == null ==> r == Err(ArgumentNull)
    ensures bitmap != null ==>
              r.Ok? && r.value.Dense? && fresh(r.value.mask.data) && r.value.Valid() &&
              r.value.Width() == bitmap.Length0 && r.value.Height() == bitmap.Length1 &&
              forall x, y :: InGrid(x, y, bitmap.Length0, bitmap.Length1) ==> r.value.GetCell(x, y) == filter.maskingFunction(bitmap[x, y])
  {
    if bitmap == null {
      return Err(ArgumentNull);
    }
    var width := bitmap.Length0;
    var height := bitmap.Length1;
    var maskData := new bool[width * height];
    for x := 0 to width
      invariant forall c, row :: InGrid(c, row, width, height) && c < x ==>
                  maskData[Index(c, row, width)] == filter.maskingFunction(bitmap[c, row])
    {
      for y := 0 to height
        invariant forall c, row :: InGrid(c, row, width, height) && (c < x || (c == x && row < y)) ==>
                    maskData[Index(c, row, width)] == filter.maskingFunction(bitmap[c, row])
      {
        InGridIntro(x, y, width, height);
        OthersDistinct(x, y, width, height);
        var baseIndex := y * width;
        var index := baseIndex + x;
        var currentColor := bitmap[x, y];
        if filter.maskingFunction(currentColor) {
          maskData[index] := true;
        } else {
          maskData[index] := false;
        }
      }
    }
    var m := new Mask(maskData, width, height);
    r := Ok(Dense(m));
  }

  // FillMaskFilter and FillNonMaskFilter

  /**
    The state of a fill filter: the mask, the colour, and which pixels it
    paints (`selected` true: FillMaskFilter paints the selected ones; false:
    FillNonMaskFilter paints the unselected ones).
  */
  datatype FillFilter = FillFilter(mask: IMask, color: Color, selected: bool)

  /** The FillMaskFilter constructor: rejects a null mask. */
  function NewFillMaskFilter(mask: Option<IMask>, maskedColor: Color): (r: Result<FillFilter>)
    ensures r.Err? <==> mask.None?
    ensures r.Err? ==> r.error == ArgumentNull
    ensures r.Ok? ==> r.value == FillFilter(mask.value, maskedColor, true)
  {
    if mask.None? then Err(ArgumentNull) else Ok(FillFilter(mask.value, maskedColor, true))
  }

  /** The FillNonMaskFilter constructor: rejects a null mask. */
  function NewFillNonMaskFilter(mask: Option<IMask>, unmaskedColor: Color): (r: Result<FillFilter>)
    ensures r.Err? <==> mask.None?
    ensures r.Err? ==> r.error == ArgumentNull
    ensures r.Ok? ==> r.value == FillFilter(mask.value, unmaskedColor, false)
  {
    if mask.None? then Err(ArgumentNull) else Ok(FillFilter(mask.value, unmaskedColor, false))
  }

  /** The filter's mask fits the bitmaps it is applied to. */
  predicate Fits(filter: FillFilter, width: int, height: int)
  {
    filter.mask.Valid() && filter.mask.Width() == width && filter.mask.Height() == height
  }

  /**
    ApplyOnSource: paints, in place, each pixel whose mask cell is selected
    (FillMaskFilter) or unselected (FillNonMaskFilter); every other pixel
    keeps its colour. A null bitmap is rejected.
  */
  method ApplyOnSource(filter: FillFilter, bitmap: array2?<Color>) returns (outcome: Outcome)
    requires bitmap != null ==> Fits(filter, bitmap.Length0, bitmap.Length1)
    modifies bitmap
    ensures bitmap == null ==> outcome == Fail(ArgumentNull)
    ensures bitmap != null ==>
              outcome == Pass &&
              Pixels(bitmap) == Recoloured(old(Pixels(bitmap)), filter.mask.Cells(), bitmap.Length0, bitmap.Length1, filter.selected, filter.color)
  {
    if bitmap == null {
      return Fail(ArgumentNull);
    }
    var width := bitmap.Length0;
    var height := bitmap.Length1;
    ghost var cells := filter.mask.Cells();
    ghost var before := Pixels(bitmap);
    ghost var after := Recoloured(before, cells, width, height, filter.selected, filter.color);
    for x := 0 to width
      invariant forall c, row :: 0 <= c < width && 0 <= row < height ==> bitmap[c, row] == (if c < x then after[c][row] else before[c][row])
    {
      PaintColumn(filter, bitmap, x, cells, before, after);
    }
    PixelwiseEqual(Pixels(bitmap), after, width, height);
    outcome := Pass;
  }

  /** The inner loop of ApplyOnSource: column x is painted, the other columns are left as they are. */
  method PaintColumn(filter: FillFilter, bitmap: array2<Color>, x: int, ghost cells: seq<bool>, ghost before: Image, ghost after: Image)
    requires Fits(filter, bitmap.Length0, bitmap.Length1) && cells == filter.mask.Cells() && 0 <= x < bitmap.Length0
    requires Shaped(before, bitmap.Length0, bitmap.Length1)
    requires after == Recoloured(before, cells, bitmap.Length0, bitmap.Length1, filter.selected, filter.color)
    requires forall c, row :: 0 <= c < bitmap.Length0 && 0 <= row < bitmap.Length1 ==>
               bitmap[c, row] == (if c < x then after[c][row] else before[c][row])
    modifies bitmap
    ensures forall c, row :: 0 <= c < bitmap.Length0 && 0 <= row < bitmap.Length1 ==>
              bitmap[c, row] == (if c <= x then after[c][row] else before[c][row])
  {
    var width := bitmap.Length0;
    var height := bitmap.Length1;
    for y := 0 to height
      invariant forall c, row :: 0 <= c < width && 0 <= row < height ==>
                  bitmap[c, row] == (if c < x || (c == x && row < y) then after[c][row] else before[c][row])
    {
      InGridIntro(x, y, width, height);
      assert filter.mask.GetCell(x, y) == Selected(cells, width, height, x, y);
      if filter.mask.GetCell(x, y) == filter.selected {
        bitmap[x, y] := filter.color;
      }
    }
  }

  /** `new Bitmap(bitmap)`: a fresh bitmap with the same pixels. */
  method CopyBitmap(bitmap: array2<Color>) returns (copy: array2<Color>)
    ensures fresh(copy) && copy.Length0 == bitmap.Length0 && copy.Length1 == bitmap.Length1 && Pixels(copy) == Pixels(bitmap)
  {
    copy := new Color[bitmap.Length0, bitmap.Length1]((x, y) reads bitmap => if 0 <= x < bitmap.Length0 && 0 <= y < bitmap.Length1 then bitmap[x, y] else Color(0, 0, 0, 0));
    PixelwiseEqual(Pixels(copy), Pixels(bitmap), bitmap.Length0, bitmap.Length1);
  }

  /** Apply: the source bitmap is left as it was and a recoloured copy is returned; a null bitmap is rejected. */
  method Apply(filter: FillFilter, bitmap: array2?<Color>) returns (r: Result<array2<Color>>)
    requires bitmap != null ==> Fits(filter, bitmap.Length0, bitmap.Length1)
    ensures bitmap == null ==> r == Err(ArgumentNull)
    ensures bitmap != null ==>
              r.Ok? && fresh(r.value) &&
              Pixels(r.value) == Recoloured(Pixels(bitmap), filter.mask.Cells(), bitmap.Length0, bitmap.Length1, filter.selected, filter.color)
  {
    if bitmap == null {
      return Err(ArgumentNull);
    }
    var newBitmap := CopyBitmap(bitmap);
    var _ := ApplyOnSource(filter, newBitmap);
    r := Ok(newBitmap);
  }
}

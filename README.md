# Binary-mask engine of MelanomaDetection, in Dafny

This project models the binary-mask engine of the MelanomaDetection
research code (`Research.Algorithms`). It also models the weight unpacking
of the training program.

- **Representations.** A mask is a width-by-height boolean grid read through
  `GetCell(column, row)` at row-major position `row * Width + column`. It comes
  in three forms:
  - a dense `Mask` over a bit array that `SetCell` changes in place;
  - a `SplitMask`, the single-label view of a shared integer label plane;
  - a `GroupSplitMask`, the label-set view of such a plane.

  Views hold the plane by reference.
- **Operations.**
  - Connected-component labelling (`SplitBlobMask`), with its union-find
    table `SplitMaskMergerList`.
  - The mask algebra: `ToMask`, `Invert`, `And`, `Sum` and `Add`, plus the
    `Combine` methods behind `Add`.
  - Hole filling (`FillBlobMask`).
  - Extraction of the blob nearest the centre (`MostCenterMask`).
  - The integer descriptors `Centroid` and `Perimeter`.
  - Three bitmap filters: a mask from a per-pixel predicate, and painting the
    selected or the unselected pixels.
  - The split of a flat weight vector into two weight matrices and two bias
    vectors.

Modules:

- `Wrappers`: `Option` stands for a nullable reference. The `Result`/`Outcome`
  values carry the exception kinds the code throws (`ArgumentNull`,
  `Argument`, `NotSupported`, `NullReference`, `IndexOutOfRange`,
  `DivideByZero`).
- `Grid`: cell addressing, cell-wise counts and the column-major sums behind
  `Sum`, `Centroid` and `Perimeter`.
- `Masks`: the three representations, the `IMask` sum type and the `Combine`
  methods.
- `SpecializedDataStructures`: the merger table and the forest invariant
  `1 <= values[k-1] <= k`.
- `Labelling` and `Segmentation`: `SplitBlobMask`.
- `MaskOperations`: the mask algebra and the descriptors.
- `RegionGrowing`: `FillBlobMask`.
- `CenterMask`: `MostCenterMask`.
- `ImageFilters`: the three filters.
- `Training`: the network factory's weight unpacking.

Loops that update state are methods proved against specification functions
or predicates. Examples:
- `FilledBy` describes the result of hole filling region by region.
- `CenterSeed` and `Flooded` describe the centre search and the flood.
- `Resolved`, `IsLabelling` and `SignificantLabels` describe the labelling. `FourConnected` (a path of 4-adjacent selected cells) defines the components it must label.
- `Recoloured` describes the bitmap filters.
- `SlotOf` and `PositionOf` describe the weight unpacking.

Lemmas connect these specifications to the properties the code relies on.

## Model

Paths are relative to the repository root.

| member | source | states |
|---|---|---|
| Masks.NewMask | Research.MelanomaDetection/Research.Algorithms/Mask.cs:44-53 | Null data fails with ArgumentNull. Otherwise a fresh mask keeps the given array by reference, with the given width and height; nothing checks the length. |
| Masks.Mask.GetCell | Research.MelanomaDetection/Research.Algorithms/Mask.cs:63-68 | Cell (column, row) is bit `row * width + column`, which lies inside the bit array. |
| Masks.Mask.SetCell | Research.MelanomaDetection/Research.Algorithms/Mask.cs:76-81 | The array becomes the old array with exactly bit `row * width + column` replaced. That cell reads back the new value; every other cell keeps its value. |
| Masks.Mask.Combine | Research.MelanomaDetection/Research.Algorithms/Mask.cs:84-108 | As written: null fails with ArgumentNull, and a non-dense argument fails with NullReference (the guard at line 90 tests the wrong variable). A dense argument of another length fails with Argument. Otherwise the result is a fresh cell-wise OR and the receiver is untouched. |
| Masks.Mask.CombineCorrected | Research.MelanomaDetection/Research.Algorithms/Mask.cs:84-108 | With the guard testing `normalMask`, any argument of the receiver's shape gives a fresh dense mask whose cells are the union of both operands. |
| Masks.Mask.OrWith | Research.MelanomaDetection/Research.Algorithms/Mask.cs:91 | Clone then OR: bit arrays of different lengths fail with Argument. Otherwise a fresh array holds the cell-wise OR. |
| Masks.SplitMask.GetCell | Research.MelanomaDetection/Research.Algorithms/SplitMask.cs:58-63 | True iff the plane holds the view's label at `row * width + column`. |
| Masks.SplitMask.CheckIfSameReferenceType | Research.MelanomaDetection/Research.Algorithms/SplitMask.cs:65-74 | Null fails with ArgumentNull. Otherwise the result is true iff both views read the very same plane object. |
| Masks.SplitMask.Combine | Research.MelanomaDetection/Research.Algorithms/SplitMask.cs:76-101 | Null fails with ArgumentNull. A view of the same plane gives the label-set view of both labels, with no scan. Anything else gives a fresh dense mask whose cells are "plane holds 0" OR "argument cell", as written. |
| Masks.SplitMask.CombineCorrected | Research.MelanomaDetection/Research.Algorithms/SplitMask.cs:76-101 | Same as Combine, except that the fallback mask is the union of this view's cells and the argument's cells. |
| Masks.SplitMask.FallbackScan | Research.MelanomaDetection/Research.Algorithms/SplitMask.cs:87-99 | The nested loop builds a fresh dense mask whose cells are the union of "plane holds the scan label" and the other mask's cells. |
| Masks.ScanSelectsUnlabelledCell | Research.MelanomaDetection/Research.Algorithms/SplitMask.cs:95 | On a one-cell plane holding 0, the label-1 view selects nothing. Even so, the as-written fallback combined with an empty mask selects that cell; the corrected one does not. |
| Masks.NewSplitMask | Research.MelanomaDetection/Research.Algorithms/SplitMask.cs:43-52 | A null plane fails with ArgumentNull. Otherwise the view keeps the very plane given, with no copy, plus the label and the shape. |
| Masks.GroupSplitMask.GetCell | Research.MelanomaDetection/Research.Algorithms/GroupSplitMask.cs:55-60 | True iff the plane value at `row * width + column` is in the label set. |
| Masks.NewGroupSplitMask | Research.MelanomaDetection/Research.Algorithms/GroupSplitMask.cs:36-49 | A null plane or null labels fail with ArgumentNull. Otherwise the view keeps the plane by reference, and its label set holds exactly the given labels. No label is checked. |
| Masks.GroupLabelsAsSet | Research.MelanomaDetection/Research.Algorithms/GroupSplitMask.cs:46 | Two label lists with the same members give the same view, whatever their order and repetitions. |
| Masks.IMask.Cells | Research.MelanomaDetection/Research.Algorithms/Mask.cs:63-68 | The row-major cell sequence of any mask: width times height cells, with position `row * width + column` holding GetCell(column, row). |
| Masks.GroupOfTwoIsUnion | Research.MelanomaDetection/Research.Algorithms/SplitMask.cs:82-84 | The label-set view of two labels on one plane selects exactly the union of the two single-label views. |
| Grid.CellOf | Research.MelanomaDetection/Research.Algorithms/Mask.cs:65-66 | Every position below width times height is the row-major position of exactly one grid cell: column `i % width`, row `i / width`. |
| Grid.IndexInjective | Research.MelanomaDetection/Research.Algorithms/Mask.cs:65-66 | Two grid cells with the same row-major position are the same cell. |
| Grid.AreaIsCountTrue | Research.MelanomaDetection/Research.Algorithms/Operations/MaskOperations.cs:317-353 | The column-major count of selected cells equals the number of set bits in the row-major sequence. |
| Grid.BorderAtMostArea | Research.MelanomaDetection/Research.Algorithms/Operations/MaskOperations.cs:651-689 | The number of border cells lies between 0 and the number of selected cells. |
| Grid.IndexSumBounds | Research.MelanomaDetection/Research.Algorithms/Operations/MaskOperations.cs:519-535 | The sum of the selected cells' columns (rows) lies between 0 and width - 1 (height - 1) times their number. |
| Grid.QuotientBound | Research.MelanomaDetection/Research.Algorithms/Operations/MaskOperations.cs:537 | Dividing such a sum by the positive number of cells gives a value between 0 and the bound. |
| SpecializedDataStructures.Root | Research.MelanomaDetection/Research.Algorithms/SpecializedDataStructures/SplitMaskMergerList.cs:32-58 | Following the table from key k ends at a root r (a key pointing at itself) with 1 <= r <= k. |
| SpecializedDataStructures.PathFacts | Research.MelanomaDetection/Research.Algorithms/SpecializedDataStructures/SplitMaskMergerList.cs:44-50 | Every key the lookup passes lies in 1 .. k, is not a root and has k's root. The start key is passed iff it is not a root. |
| SpecializedDataStructures.RedirectKeepsRoots | Research.MelanomaDetection/Research.Algorithms/SpecializedDataStructures/SplitMaskMergerList.cs:52-55 | Pointing a key straight at its root keeps the invariant and changes no key's root. |
| SpecializedDataStructures.RedirectedFacts | Research.MelanomaDetection/Research.Algorithms/SpecializedDataStructures/SplitMaskMergerList.cs:52-55 | The compression loop rewrites exactly the entries of the keys it passed. It keeps the invariant and every root. |
| SpecializedDataStructures.RedirectedEntries | Research.MelanomaDetection/Research.Algorithms/SpecializedDataStructures/SplitMaskMergerList.cs:52-55 | Writing the root for a list of keys changes exactly the entries of the listed keys. |
| SpecializedDataStructures.RedirectedRoots | Research.MelanomaDetection/Research.Algorithms/SpecializedDataStructures/SplitMaskMergerList.cs:52-55 | Pointing keys that share root v straight at v keeps the table a forest and keeps every key's root. |
| SpecializedDataStructures.CompressedPath | Research.MelanomaDetection/Research.Algorithms/SpecializedDataStructures/SplitMaskMergerList.cs:44-55 | After compressing key's path, every key up to key points at its root, provided every earlier key already did. |
| SpecializedDataStructures.CompressedRoots | Research.MelanomaDetection/Research.Algorithms/SpecializedDataStructures/SplitMaskMergerList.cs:44-55 | Compression seen from an earlier table with the same roots: the returned root, every root, and the entries up to key agree with that table. |
| SpecializedDataStructures.SameRootsTrans | Research.MelanomaDetection/Research.Algorithms/SpecializedDataStructures/SplitMaskMergerList.cs:32-60 | Two lookups in a row, each keeping every root, together keep every root. |
| SpecializedDataStructures.LinkRoots | Research.MelanomaDetection/Research.Algorithms/Operations/MaskOperations.cs:159-168 | Pointing root a at a smaller root b keeps the invariant and moves exactly a's class to b. |
| SpecializedDataStructures.ExtendKeepsRoots | Research.MelanomaDetection/Research.Algorithms/SpecializedDataStructures/SplitMaskMergerList.cs:85-86 | Appending a new self-rooted key keeps the invariant and every old root. |
| SpecializedDataStructures.SplitMaskMergerList.constructor | Research.MelanomaDetection/Research.Algorithms/SpecializedDataStructures/SplitMaskMergerList.cs:25-30 | Starts empty, with the given capacity and increment and a fresh array. |
| SpecializedDataStructures.SplitMaskMergerList.HighestKey | Research.MelanomaDetection/Research.Algorithms/SpecializedDataStructures/SplitMaskMergerList.cs:17-23 | The current key count, within capacity; the entries up to it form a forest. |
| SpecializedDataStructures.SplitMaskMergerList.GetValue | Research.MelanomaDetection/Research.Algorithms/SpecializedDataStructures/SplitMaskMergerList.cs:32-60 | Terminates and returns the root of the key, with 1 <= root <= key. Each key on the followed path now points at the root and every other entry is unchanged. No key's root changes. |
| SpecializedDataStructures.SplitMaskMergerList.FollowPath | Research.MelanomaDetection/Research.Algorithms/SpecializedDataStructures/SplitMaskMergerList.cs:44-50 | The pointer-following loop returns the root and exactly the keys passed. |
| SpecializedDataStructures.SplitMaskMergerList.PointAtRoot | Research.MelanomaDetection/Research.Algorithms/SpecializedDataStructures/SplitMaskMergerList.cs:52-55 | The write-back loop points every passed key at the root, keeping all roots. |
| SpecializedDataStructures.SplitMaskMergerList.GetValueRawAccess | Research.MelanomaDetection/Research.Algorithms/SpecializedDataStructures/SplitMaskMergerList.cs:62-66 | Returns the key's own entry, 1 <= v <= key, and modifies nothing. |
| SpecializedDataStructures.SplitMaskMergerList.SetValue | Research.MelanomaDetection/Research.Algorithms/SpecializedDataStructures/SplitMaskMergerList.cs:68-72 | Under the caller's promise 1 <= value <= key, exactly that entry changes and the invariant holds. |
| SpecializedDataStructures.SplitMaskMergerList.GetNext | Research.MelanomaDetection/Research.Algorithms/SpecializedDataStructures/SplitMaskMergerList.cs:74-91 | Returns HighestKey + 1 and makes it the new HighestKey, as its own root. The table is extended by that key; capacity grows by the increment exactly when the array was full. |
| SpecializedDataStructures.SplitMaskMergerList.Resize | Research.MelanomaDetection/Research.Algorithms/SpecializedDataStructures/SplitMaskMergerList.cs:93-100 | A fresh array exactly `capacityIncrement` longer, holding the same entries for keys 1 .. current. |
| Labelling.AreaIsViewArea | Research.MelanomaDetection/Research.Algorithms/Operations/MaskOperations.cs:217-219 | A label's area in the plane is the number of cells its single-label view selects. |
| Labelling.AreaUpdate | Research.MelanomaDetection/Research.Algorithms/Operations/MaskOperations.cs:151-152 | Writing a label at one position moves one unit of area from the old label to the new one. |
| Labelling.AreaPositive | Research.MelanomaDetection/Research.Algorithms/Operations/MaskOperations.cs:217-219 | A label with positive area occurs in the plane. |
| Labelling.AdjacentCells | Research.MelanomaDetection/Research.Algorithms/Operations/MaskOperations.cs:139-147 | Horizontally or vertically neighbouring grid cells sit at the left-neighbour or up-neighbour positions the scan reads. |
| Labelling.ClassAreaIsResolvedArea | Research.MelanomaDetection/Research.Algorithms/Operations/MaskOperations.cs:186-212 | Adding up the counts of all provisional labels with root r gives r's area in the plane rewritten to roots. |
| Labelling.ClassAreaAtLeast | Research.MelanomaDetection/Research.Algorithms/Operations/MaskOperations.cs:193 | Each per-root total is non-negative and includes the root's own count. |
| Labelling.ClassAreaBelow | Research.MelanomaDetection/Research.Algorithms/Operations/MaskOperations.cs:188-199 | Keys below r contribute nothing to r's total, since a root is at or below each of its keys. |
| Segmentation.Views | Research.MelanomaDetection/Research.Algorithms/Operations/MaskOperations.cs:219 | One single-label view of the shared plane per label, in order. |
| Segmentation.Significant | Research.MelanomaDetection/Research.Algorithms/Operations/MaskOperations.cs:215-220 | Keeps exactly the roots whose merged count reaches the threshold, in the order given (increasing if the input is). |
| Segmentation.Merge | Research.MelanomaDetection/Research.Algorithms/Operations/MaskOperations.cs:155-170 | Afterwards the two labels have one root. Every key's root is its old root, or the smaller root if it was one of the two joined. |
| Segmentation.JoinedRoots | Research.MelanomaDetection/Research.Algorithms/Operations/MaskOperations.cs:157-169 | After the two lookups and the link, the two labels share a root, and every key's new root is its old root with the two joined classes renamed to one. |
| Segmentation.Link | Research.MelanomaDetection/Research.Algorithms/Operations/MaskOperations.cs:159-169 | Two different roots are joined, the larger pointing at the smaller; other classes are unchanged. |
| Segmentation.ScanStep | Research.MelanomaDetection/Research.Algorithms/Operations/MaskOperations.cs:134-182 | One selected position keeps four facts: labels sit exactly at the selected cells scanned so far; labelled 4-neighbours share a root; labels with one root sit on cells joined by a selected 4-path; the counts are the label areas. |
| Segmentation.TakeLeft | Research.MelanomaDetection/Research.Algorithms/Operations/MaskOperations.cs:149-170 | A labelled left neighbour: the cell takes its label, its count grows by one, and a labelled upper neighbour is merged with it; the scan invariant moves one position on. |
| Segmentation.TakeUp | Research.MelanomaDetection/Research.Algorithms/Operations/MaskOperations.cs:172-176 | Only the upper neighbour labelled: the cell takes its label and its count grows by one; the scan invariant moves one position on. |
| Segmentation.TakeNext | Research.MelanomaDetection/Research.Algorithms/Operations/MaskOperations.cs:177-182 | No labelled neighbour: the cell takes a fresh key, entered in the counts with 1; the scan invariant moves one position on. |
| Segmentation.ScanAdvance | Research.MelanomaDetection/Research.Algorithms/Operations/MaskOperations.cs:149-182 | Labelling a selected cell with a known label (count plus one) or a fresh key (count one) advances the scan invariant. The table may only merge classes and join the label with its labelled neighbours, and every class it grows reaches the cell through the left or upper neighbour. |
| Segmentation.ScanLabels | Research.MelanomaDetection/Research.Algorithms/Operations/MaskOperations.cs:130-184 | Under the scan invariant every earlier label is a key of the table with a count, and the current position is still unlabelled. |
| Segmentation.ScanStart | Research.MelanomaDetection/Research.Algorithms/Operations/MaskOperations.cs:119-123 | The zeroed plane, the empty table and the empty counts satisfy the scan invariant at position 0. |
| Segmentation.ScanSkip | Research.MelanomaDetection/Research.Algorithms/Operations/MaskOperations.cs:135 | An unselected cell keeps label 0 and the scan invariant moves past it. |
| Segmentation.SameRootsCoarser | Research.MelanomaDetection/Research.Algorithms/Operations/MaskOperations.cs:157-158 | Lookups that keep every root (extra keys allowed) only coarsen the partition. |
| Segmentation.ExtendCoarser | Research.MelanomaDetection/Research.Algorithms/Operations/MaskOperations.cs:179 | A fresh key that is its own root keeps a forest and coarsens the partition; its class is new and holds no earlier key. |
| Segmentation.JoinCoarser | Research.MelanomaDetection/Research.Algorithms/Operations/MaskOperations.cs:159-169 | Joining two classes coarsens the partition and puts both labels in one class. Keys that now share a root shared one before, or were in one of the two joined classes. |
| Segmentation.StepLabels | Research.MelanomaDetection/Research.Algorithms/Operations/MaskOperations.cs:137-182 | Labelling a position with a label whose root its labelled left and up neighbours share extends both scan invariants. |
| Segmentation.StepCounts | Research.MelanomaDetection/Research.Algorithms/Operations/MaskOperations.cs:149-182 | Incrementing (or creating at 1) the count of the written label keeps counts equal to areas. |
| Segmentation.PositionFacts | Research.MelanomaDetection/Research.Algorithms/Operations/MaskOperations.cs:132-147 | `index % width > 0` iff there is a left neighbour, and `index / width > 0` iff there is an upper neighbour. |
| Segmentation.ScanCell | Research.MelanomaDetection/Research.Algorithms/Operations/MaskOperations.cs:134-182 | One iteration of the first pass, selected or not, moves the whole scan invariant one position on and keeps the table valid. |
| Segmentation.StepJoined | Research.MelanomaDetection/Research.Algorithms/Operations/MaskOperations.cs:149-182 | Writing the label at a selected cell keeps labels of one root on cells joined by a selected 4-path, when every class the table grew reaches the cell through a labelled neighbour. |
| Segmentation.JoinedToCurrent | Research.MelanomaDetection/Research.Algorithms/Operations/MaskOperations.cs:139-147 | An earlier cell whose class reaches the current cell through its left or upper neighbour is joined with it by a selected 4-path, in both directions. |
| Segmentation.KeptThrough | Research.MelanomaDetection/Research.Algorithms/Operations/MaskOperations.cs:149-176 | When the table is unchanged and the cell takes its left or upper neighbour's label, every class reaches the cell through that neighbour. |
| Segmentation.RasterScan | Research.MelanomaDetection/Research.Algorithms/Operations/MaskOperations.cs:130-184 | After the first pass: positive labels exactly at selected cells; 4-adjacent labels share a root; labels with one root sit on cells joined by a selected 4-path; counts equal the label areas. |
| Segmentation.MergeCounts | Research.MelanomaDetection/Research.Algorithms/Operations/MaskOperations.cs:186-199 | Every key's entry becomes its root, with roots unchanged. The merged counts hold one entry per root, equal to its class area, with roots entered in increasing order. |
| Segmentation.MergeStart | Research.MelanomaDetection/Research.Algorithms/Operations/MaskOperations.cs:186-187 | Before the merge loop the empty totals and the unresolved table satisfy the merge invariant. |
| Segmentation.MergeKey | Research.MelanomaDetection/Research.Algorithms/Operations/MaskOperations.cs:188-199 | One key resolved and its count added to its root's total (the root entered when first met) advances the merge invariant by one key. |
| Segmentation.AddCount | Research.MelanomaDetection/Research.Algorithms/Operations/MaskOperations.cs:190-198 | A root opens its entry and any other key adds its count to its root's entry. |
| Segmentation.MergeStep | Research.MelanomaDetection/Research.Algorithms/Operations/MaskOperations.cs:190-198 | Both branches of the merge loop extend the merged-count invariant by one key. |
| Segmentation.ResolveKey | Research.MelanomaDetection/Research.Algorithms/Operations/MaskOperations.cs:190 | GetValue on the next key returns its root and leaves every earlier key's entry at its root. |
| Segmentation.ResolvePlane | Research.MelanomaDetection/Research.Algorithms/Operations/MaskOperations.cs:202-212 | The plane becomes the old plane with each positive label replaced by its root. |
| Segmentation.SelectBlobs | Research.MelanomaDetection/Research.Algorithms/Operations/MaskOperations.cs:214-222 | Exactly the views of the significant roots, in dictionary order. |
| Segmentation.SignificantStep | Research.MelanomaDetection/Research.Algorithms/Operations/MaskOperations.cs:215-221 | Looking at one more root of the order adds it to the selection exactly when its total reaches the threshold. |
| Segmentation.ViewsAppend | Research.MelanomaDetection/Research.Algorithms/Operations/MaskOperations.cs:218-220 | Adding one label appends exactly that label's view to the list of views. |
| Segmentation.SplitBlobMask | Research.MelanomaDetection/Research.Algorithms/Operations/MaskOperations.cs:111-225 | Null fails with ArgumentNull. Otherwise the result is the views, over one fresh plane, of exactly the labels whose area reaches the threshold, in increasing order. The plane labels the 4-connected components: it is positive exactly at the selected cells, and two selected cells have one label iff a path of 4-adjacent selected cells joins them. |
| Segmentation.LabelComponents | Research.MelanomaDetection/Research.Algorithms/Operations/MaskOperations.cs:119-212 | The first three passes on a fresh plane: the resolved plane labels the input's 4-connected components and the significant roots are exactly its labels whose area reaches the threshold. |
| Segmentation.ScanAndMerge | Research.MelanomaDetection/Research.Algorithms/Operations/MaskOperations.cs:121-199 | The first two passes on a fresh plane and table: the plane labels exactly the selected cells, 4-adjacent labels share a class and each class lies in one 4-connected component. The counts are the label areas, and the merged totals are the class areas by root. |
| Segmentation.ScanResult | Research.MelanomaDetection/Research.Algorithms/Operations/MaskOperations.cs:130-221 | The four passes together: the resolved plane labels the input, and the selected labels are exactly its significant ones. |
| Segmentation.ResolvedLabelling | Research.MelanomaDetection/Research.Algorithms/Operations/MaskOperations.cs:202-212 | Replacing each scan label by its root gives a plane that is positive exactly at the selected cells, equal on 4-adjacent selected cells, and equal only on cells a selected 4-path joins. |
| Segmentation.SelectedSignificant | Research.MelanomaDetection/Research.Algorithms/Operations/MaskOperations.cs:186-221 | The selected roots are exactly the labels of the resolved plane whose area reaches the threshold. |
| Segmentation.RootKept | Research.MelanomaDetection/Research.Algorithms/Operations/MaskOperations.cs:186-221 | A label of the resolved plane whose area reaches the threshold is a root whose merged total reaches it, so the selection keeps it. |
| Segmentation.BlobsInsideInput | Research.MelanomaDetection/Research.Algorithms/Operations/MaskOperations.cs:214-221 | Every returned view selects only cells selected in the input. |
| Segmentation.BlobsDisjoint | Research.MelanomaDetection/Research.Algorithms/Operations/MaskOperations.cs:214-221 | No two returned views share a cell. |
| Segmentation.PathOneLabel | Research.MelanomaDetection/Research.Algorithms/Operations/MaskOperations.cs:111-225 | Along a path of 4-adjacent selected cells a labelling keeps one label. |
| Segmentation.LabelIffConnected | Research.MelanomaDetection/Research.Algorithms/Operations/MaskOperations.cs:111-225 | In a labelling, a selected cell shares its label with another cell iff a selected 4-path joins them. |
| Segmentation.BlobsAreComponents | Research.MelanomaDetection/Research.Algorithms/Operations/MaskOperations.cs:214-221 | Each returned view selects, around any of its cells, exactly the cells a selected 4-path reaches from it. |
| Segmentation.PathStaysIn | Research.MelanomaDetection/Research.Algorithms/Operations/MaskOperations.cs:139-147 | A selected 4-path that starts in a region closed under selected 4-neighbours ends in it. |
| Segmentation.GapSplitsLabel | Research.MelanomaDetection/Research.Algorithms/Operations/MaskOperations.cs:139-147 | Two selected cells separated by an unselected one in a single row may not share a label. |
| Segmentation.NoCellsNoBlobs | Research.MelanomaDetection/Research.Algorithms/Operations/MaskOperations.cs:130-221 | Input with no selected cell returns no views. |
| MaskOperations.CopyToMask | Research.MelanomaDetection/Research.Algorithms/Operations/MaskOperations.cs:265-284 | A fresh dense mask of the same shape with the same cells, by a clone or a cell-by-cell scan. |
| MaskOperations.ToMask | Research.MelanomaDetection/Research.Algorithms/Operations/MaskOperations.cs:260-285 | Null fails with ArgumentNull. Otherwise a fresh dense mask, equal to the input cell by cell, leaving the input alone. |
| MaskOperations.Invert | Research.MelanomaDetection/Research.Algorithms/Operations/MaskOperations.cs:294-308 | Null fails with ArgumentNull. Otherwise a fresh dense mask of the same shape holding the cell-wise negation. |
| MaskOperations.NegateAll | Research.MelanomaDetection/Research.Algorithms/Operations/MaskOperations.cs:303-305 | Every bit of the array is flipped in place: the new bits are the complement of the old ones. |
| MaskOperations.InvertInvolution | Research.MelanomaDetection/Research.Algorithms/Operations/MaskOperations.cs:303-305 | Negating twice gives the original cells. |
| MaskOperations.And | Research.MelanomaDetection/Research.Algorithms/Operations/MaskOperations.cs:362-382 | Either null fails with ArgumentNull. Different cell counts fail with Argument. Otherwise a fresh dense mask, of the first operand's shape, holding the cell-wise conjunction; no operand is modified. |
| MaskOperations.ConjoinAll | Research.MelanomaDetection/Research.Algorithms/Operations/MaskOperations.cs:377-379 | Each bit becomes its old value AND the other array's bit at the same index; the other array is not written. |
| MaskOperations.AndCommutes | Research.MelanomaDetection/Research.Algorithms/Operations/MaskOperations.cs:377-379 | The conjunction does not depend on operand order. |
| MaskOperations.AndAssociates | Research.MelanomaDetection/Research.Algorithms/Operations/MaskOperations.cs:377-379 | The conjunction does not depend on grouping. |
| MaskOperations.Sum | Research.MelanomaDetection/Research.Algorithms/Operations/MaskOperations.cs:317-353 | Null fails with ArgumentNull. Otherwise the number of set cells, which is also the column-major area and lies between 0 and the cell count. |
| MaskOperations.Add | Research.MelanomaDetection/Research.Algorithms/Operations/MaskOperations.cs:392-415 | The operand types pick the branch: null fails with ArgumentNull; any label-set view fails with NotSupported; two views of one plane give a label-set view; a view with another mask uses the as-written fallback; two dense masks give their OR, of the receiver's width and height, or Argument on a length mismatch; a dense mask with a view gives NullReference. |
| MaskOperations.CentroidOf | Research.MelanomaDetection/Research.Algorithms/Operations/MaskOperations.cs:514-539 | With no selected cell the division fails; otherwise the integer means of the selected columns and rows, which lie inside the grid. |
| MaskOperations.Centroid | Research.MelanomaDetection/Research.Algorithms/Operations/MaskOperations.cs:514-539 | The column-major accumulation loop returns exactly CentroidOf of the cells. |
| MaskOperations.Perimeter | Research.MelanomaDetection/Research.Algorithms/Operations/MaskOperations.cs:651-689 | The number of selected cells with a 4-neighbour outside the grid or unselected; between 0 and Sum. |
| MaskOperations.BorderIncrement | Research.MelanomaDetection/Research.Algorithms/Operations/MaskOperations.cs:663-680 | The two neighbour loops give 1 exactly for a border cell. |
| MaskOperations.Unselected | Research.MelanomaDetection/Research.Algorithms/Operations/MaskOperations.cs:665-678 | A neighbour counts for the border test iff it lies outside the grid or is an unselected cell. |
| RegionGrowing.FillLength | Research.MelanomaDetection/Research.Algorithms/Operations/MaskOperations.cs:62-63 | Of count dequeued points, the fill queue keeps the smaller of count and the minimum (none if the minimum is not positive). |
| RegionGrowing.ConsiderNeighbour | Research.MelanomaDetection/Research.Algorithms/Operations/MaskOperations.cs:70-79 | A neighbour passing the bound test, not yet processed and unselected is enqueued and marked processed; the search invariants are kept. |
| RegionGrowing.VisitColumn | Research.MelanomaDetection/Research.Algorithms/Operations/MaskOperations.cs:68-81 | After the inner loop, every admissible hole of that neighbour column is processed. |
| RegionGrowing.VisitNeighbours | Research.MelanomaDetection/Research.Algorithms/Operations/MaskOperations.cs:66-82 | After both loops, every admissible hole of the 3x3 block is processed. |
| RegionGrowing.SearchStep | Research.MelanomaDetection/Research.Algorithms/Operations/MaskOperations.cs:59-84 | One dequeue keeps the search state, and keeps for filling while the count is below the minimum. |
| RegionGrowing.Explore | Research.MelanomaDetection/Research.Algorithms/Operations/MaskOperations.cs:56-84 | The search from a seed returns a closed region of holes outside the earlier regions, reached by Steps. The fill queue holds its first FillLength points. |
| RegionGrowing.SearchComplete | Research.MelanomaDetection/Research.Algorithms/Operations/MaskOperations.cs:59-84 | When the queue is empty, the dequeued points form a complete Search. |
| RegionGrowing.Paint | Research.MelanomaDetection/Research.Algorithms/Operations/MaskOperations.cs:86-97 | When the region is smaller than the minimum, its cells are set and nothing else changes; otherwise nothing changes. |
| RegionGrowing.SeedAt | Research.MelanomaDetection/Research.Algorithms/Operations/MaskOperations.cs:48-98 | An unprocessed hole seeds the next region and it is painted; any other cell changes nothing. |
| RegionGrowing.ReadSeedCell | Research.MelanomaDetection/Research.Algorithms/Operations/MaskOperations.cs:49 | The seed test reads the blob mask's cell: a dense mask being filled is read at its current bit, any other mask at its original cells. |
| RegionGrowing.GrowRegion | Research.MelanomaDetection/Research.Algorithms/Operations/MaskOperations.cs:54-97 | From an unreached hole: the painted-state and processed-set mirror invariants are kept, no earlier region is lost, and the seed is now covered. |
| RegionGrowing.FillWith | Research.MelanomaDetection/Research.Algorithms/Operations/MaskOperations.cs:41-100 | The two seed loops leave the mask FilledBy the regions that column-major seeding produces. |
| RegionGrowing.FillBlobMask | Research.MelanomaDetection/Research.Algorithms/Operations/MaskOperations.cs:26-101 | Null fails with ArgumentNull. Otherwise the result is FilledBy the input with the bound as written (column and row at least 1). A dense mask takes that result in place; any other mask keeps its cells, since only a discarded copy is filled. |
| RegionGrowing.FillBlobMaskCorrected | Research.MelanomaDetection/Research.Algorithms/Operations/MaskOperations.cs:26-101 | Same as FillBlobMask, with the neighbour bound at line 70 admitting column 0 and row 0. |
| RegionGrowing.Fill | Research.MelanomaDetection/Research.Algorithms/Operations/MaskOperations.cs:29-39 | The null check and the dense-or-copy choice, for either bound. |
| RegionGrowing.CoveredHole | Research.MelanomaDetection/Research.Algorithms/Operations/MaskOperations.cs:54-84 | Every explored point was an unselected cell; afterwards it is selected iff its region is smaller than the minimum. |
| RegionGrowing.FillOnlySelects | Research.MelanomaDetection/Research.Algorithms/Operations/MaskOperations.cs:86-95 | A selected cell stays selected, and a cell that changes lies in a region smaller than the minimum. |
| RegionGrowing.NoFillBelowTwo | Research.MelanomaDetection/Research.Algorithms/Operations/MaskOperations.cs:86 | With a minimum hole size of 1 or less, nothing changes. |
| RegionGrowing.CorrectedRegionsClosed | Research.MelanomaDetection/Research.Algorithms/Operations/MaskOperations.cs:66-79 | With the corrected bound, each region is a whole 8-connected hole: every hole next to one of its points belongs to it. |
| RegionGrowing.AsWrittenSingleRegions | Research.MelanomaDetection/Research.Algorithms/Operations/MaskOperations.cs:70 | As written, on a one-row grid every region has one cell, because row 0 is never a neighbour. |
| RegionGrowing.AsWrittenFillsWideHole | Research.MelanomaDetection/Research.Algorithms/Operations/MaskOperations.cs:70 | As written, with minimum 2, a 2x1 hole of two cells is filled. |
| RegionGrowing.CorrectedKeepsWideHole | Research.MelanomaDetection/Research.Algorithms/Operations/MaskOperations.cs:70 | Corrected, the same 2x1 hole is one region of size 2 and is kept. |
| CenterMask.Dist | Research.MelanomaDetection/Research.Algorithms/Operations/MaskOperations.cs:446-468 | The Chebyshev distance the 8-neighbour search layers by; zero only for equal points. |
| CenterMask.StepDist | Research.MelanomaDetection/Research.Algorithms/Operations/MaskOperations.cs:455-464 | One 8-neighbour step changes the distance to the centre by at most one. |
| CenterMask.TowardCenter | Research.MelanomaDetection/Research.Algorithms/Operations/MaskOperations.cs:455-464 | Every grid point other than the centre has an 8-neighbour one step closer. |
| CenterMask.AllSearched | Research.MelanomaDetection/Research.Algorithms/Operations/MaskOperations.cs:446-468 | A search that runs to exhaustion visits every grid cell. |
| CenterMask.SearchAround | Research.MelanomaDetection/Research.Algorithms/Operations/MaskOperations.cs:455-466 | Every in-grid 8-neighbour of the current point is enqueued once, so the queue stays in distance order. |
| CenterMask.SearchTurn | Research.MelanomaDetection/Research.Algorithms/Operations/MaskOperations.cs:448-466 | One dequeue: stop at a selected point; otherwise expand the point, keeping layered order and that all expanded points are unselected. |
| CenterMask.FoundNearest | Research.MelanomaDetection/Research.Algorithms/Operations/MaskOperations.cs:446-452 | The first selected point dequeued is at minimal distance from the centre among all selected cells. |
| CenterMask.NoneFound | Research.MelanomaDetection/Research.Algorithms/Operations/MaskOperations.cs:446-468 | With no selected point found, no cell is selected, and the last point searched is farthest from the centre. |
| CenterMask.FindCenter | Research.MelanomaDetection/Research.Algorithms/Operations/MaskOperations.cs:430-468 | The search returns a grid cell. If it is selected, no selected cell is nearer the centre (width/2, height/2). If not, nothing is selected and it is a cell farthest from the centre. |
| CenterMask.FloodColumn | Research.MelanomaDetection/Research.Algorithms/Operations/MaskOperations.cs:483-491 | Every selected vertical neighbour of the current point ends up marked and enqueued once. |
| CenterMask.FloodRow | Research.MelanomaDetection/Research.Algorithms/Operations/MaskOperations.cs:493-501 | Every selected horizontal neighbour of the current point ends up marked and enqueued once. |
| CenterMask.FloodTurn | Research.MelanomaDetection/Research.Algorithms/Operations/MaskOperations.cs:477-501 | One dequeue sets exactly the current point's bit and closes it under selected 4-neighbours. |
| CenterMask.MarkVisited | Research.MelanomaDetection/Research.Algorithms/Operations/MaskOperations.cs:479-480 | Setting the dequeued point's bit makes the set bits exactly the points dequeued so far, this one included. |
| CenterMask.FloodFrom | Research.MelanomaDetection/Research.Algorithms/Operations/MaskOperations.cs:470-502 | From the seed, the bits are set exactly at the flooded points. The flood starts at the seed, is made of selected cells reached by 4-steps, and is closed under selected 4-neighbours. |
| CenterMask.MostCenterMask | Research.MelanomaDetection/Research.Algorithms/Operations/MaskOperations.cs:423-507 | Null fails with ArgumentNull and an empty grid fails with IndexOutOfRange. Otherwise a fresh dense mask of the input's shape, selecting exactly the flood from the seed FindCenter gives; the input is unchanged. |
| CenterMask.PathInFlood | Research.MelanomaDetection/Research.Algorithms/Operations/MaskOperations.cs:475-502 | Any path of selected 4-neighbours that starts in the flood stays in it: the whole component is marked. |
| CenterMask.FloodReachable | Research.MelanomaDetection/Research.Algorithms/Operations/MaskOperations.cs:475-502 | Every flooded point is reached from the seed by a path of selected 4-neighbours: nothing outside the component is marked. |
| CenterMask.UnselectedSeedFloodsAlone | Research.MelanomaDetection/Research.Algorithms/Operations/MaskOperations.cs:446-480 | If no cell is selected, the flood is the unselected seed alone, so the result marks exactly that one cell. |
| ImageFilters.Pixels | Research.MelanomaDetection/Research.Algorithms/ImageFilters/FillMaskFilter.cs:62-71 | The bitmap as a width-by-height image, pixel (x, y) at `image[x][y]`. |
| ImageFilters.Recoloured | Research.MelanomaDetection/Research.Algorithms/ImageFilters/FillMaskFilter.cs:65-72 | The image with every pixel whose cell is selected (or unselected) replaced by the colour; every other pixel is kept. |
| ImageFilters.RecolouredIdempotent | Research.MelanomaDetection/Research.Algorithms/ImageFilters/FillNonMaskFilter.cs:67-74 | Painting twice with the same mask and colour equals painting once. |
| ImageFilters.NonMaskIsMaskOfComplement | Research.MelanomaDetection/Research.Algorithms/ImageFilters/FillNonMaskFilter.cs:71-72 | Painting the unselected pixels equals painting the selected pixels of the inverted mask. |
| ImageFilters.NewMaskFromFunctionFilter | Research.MelanomaDetection/Research.Algorithms/ImageFilters/MaskFromFunctionFilter.cs:25-32 | A null predicate fails with ArgumentNull; otherwise the filter keeps the predicate. |
| ImageFilters.MaskFromFunction | Research.MelanomaDetection/Research.Algorithms/ImageFilters/MaskFromFunctionFilter.cs:39-63 | A null bitmap fails with ArgumentNull. Otherwise a fresh dense mask of the bitmap's width and height, with cell (x, y) equal to the predicate on pixel (x, y). |
| ImageFilters.NewFillMaskFilter | Research.MelanomaDetection/Research.Algorithms/ImageFilters/FillMaskFilter.cs:25-32 | A null mask fails with ArgumentNull; otherwise a filter painting selected pixels with the colour. |
| ImageFilters.NewFillNonMaskFilter | Research.MelanomaDetection/Research.Algorithms/ImageFilters/FillNonMaskFilter.cs:25-32 | A null mask fails with ArgumentNull; otherwise a filter painting unselected pixels with the colour. |
| ImageFilters.PaintColumn | Research.MelanomaDetection/Research.Algorithms/ImageFilters/FillMaskFilter.cs:67-71 | The inner loop paints column x as specified and leaves every other column alone. |
| ImageFilters.ApplyOnSource | Research.MelanomaDetection/Research.Algorithms/ImageFilters/FillMaskFilter.cs:55-74 | A null bitmap fails with ArgumentNull. Otherwise the bitmap becomes Recoloured of its old pixels: painted pixels get the colour and all others keep theirs. FillNonMaskFilter.cs:56-78 is the same loop with the test negated. |
| ImageFilters.CopyBitmap | Research.MelanomaDetection/Research.Algorithms/ImageFilters/FillMaskFilter.cs:44 | A fresh bitmap of the same size with the same pixels. |
| ImageFilters.Apply | Research.MelanomaDetection/Research.Algorithms/ImageFilters/FillMaskFilter.cs:39-49 | A null bitmap fails with ArgumentNull. Otherwise a fresh recoloured copy is returned and the source is unchanged. FillNonMaskFilter.cs:39-50 is the same. |
| Training.SlotOf | Research.MelanomaDetection/Research.Training/Program.cs:35-59 | The branch chain sends weight i to a matrix cell or bias entry. All subscripts are in range iff i is below the weight count. |
| Training.PositionOf | Research.MelanomaDetection/Research.Training/Program.cs:37-59 | The index that lands in a slot lies below the weight count. |
| Training.SlotRoundTrip | Research.MelanomaDetection/Research.Training/Program.cs:37-59 | The slot of index i maps back to i. |
| Training.PositionRoundTrip | Research.MelanomaDetection/Research.Training/Program.cs:37-59 | The position of every slot maps back to that slot, so slots and indices are in one-to-one correspondence. |
| Training.HiddenRoundTrip | Research.MelanomaDetection/Research.Training/Program.cs:37-42 | Hidden-matrix cell [c, r] receives exactly weight `c * hidden + r`. |
| Training.OutputRoundTrip | Research.MelanomaDetection/Research.Training/Program.cs:43-49 | Output-matrix cell [c, r] receives exactly weight `in * hidden + c * out + r`. |
| Training.Store | Research.MelanomaDetection/Research.Training/Program.cs:37-59 | One turn writes weight i into its slot only. |
| Training.Put | Research.MelanomaDetection/Research.Training/Program.cs:37-59 | Writing one slot sets that slot to the value and leaves every other slot of the four arrays unchanged. |
| Training.Unpack | Research.MelanomaDetection/Research.Training/Program.cs:28-61 | A vector longer than the weight count fails with IndexOutOfRange. Otherwise four fresh arrays: each slot holds the weight at its position, or the default past the end. With the count passed at line 252, each slot holds exactly its weight. |

## Left out

- Pixel access is abstract. A bitmap is a two-dimensional colour array. `new Bitmap(bitmap)`, `FastBitmap` locking and colour formats are not modelled.
- The sigmoid and the `NeuralNetwork` built from the unpacked arrays are not modelled: they are floating-point. Weights are opaque values, and `zero` stands for the arrays' default 0.0.
- Training.Unpack requires non-negative node counts through `nat`. The source would throw on a negative array size; the only caller passes positive constants.
- 32-bit overflow is not modelled: coordinates, counts and sums (`xSum`/`ySum` in `Centroid`, the area counts) are mathematical integers.
- MaskOperations.Sum counts bit by bit instead of with the 32-bit parallel population count. The masking of the unused bits of the last word is therefore not modelled; the result, the number of set cells, is the one stated.
- Operations that take two masks, and the fill filters, require equal shapes. This covers `Combine`, `Add` through a view, and a filter's mask against the bitmap. What the source does on a mismatch is not modelled. That may be an exception or a read of the wrong cell.
- Masks.Mask.Valid: every operation on a dense mask requires `data.Length == width * height`. That covers the mask's GetCell, SetCell, Combine and OrWith, and ToMask, Invert, Sum, And, Add, Centroid, Perimeter, SplitBlobMask, FillBlobMask and MostCenterMask. The Mask constructor (Mask.cs:44-53), like Masks.NewMask, accepts a BitArray of any length. With a longer array Sum also counts the bits past the grid, and with a shorter one a cell read can throw. Neither case is modelled. Every mask the modelled code builds has the exact length.
- Masks.Mask.GetCell: requires the cell to be inside the grid. The indexer computes `row * width + column` without checking, so a column or row outside the grid reads some other cell, or throws past the end of the array. Every modelled caller passes in-grid cells. The one out-of-grid read in the code, MostCenterMask on an empty grid, is modelled separately as IndexOutOfRange.
- Masks.Mask.SetCell: requires the cell to be inside the grid. The source writes `row * width + column` without checking. Writes outside the grid are not modelled.
- Masks.SplitMask.GetCell: requires the cell to be inside the grid. The source reads `_mask[row * Width + column]` without checking. Reads outside the grid are not modelled.
- Masks.GroupSplitMask.GetCell: requires the cell to be inside the grid, as for the single-label view.
- SpecializedDataStructures.SplitMaskMergerList.GetNext: requires a free entry or a positive `capacityIncrement`. On a full array with increment 0, the source's Resize keeps the length and the pointer write lands past the array. With a negative increment, the array allocation or `Array.Copy` throws. Neither is modelled. SplitBlobMask always passes `width / 2 + 1`, which is at least 1.
- SpecializedDataStructures.SplitMaskMergerList.Resize: requires `current <= capacity + capacityIncrement`, so that the new array holds every key. Otherwise `Array.Copy` throws, which is not modelled. The `checked` addition's 32-bit overflow is not modelled either. The only caller, GetNext, calls it with `current == capacity` and a positive increment.
- An `IMask` value is never null in the model. Null is modelled exactly where the code tests for it: the constructors, ToMask, Invert, And, Sum, Add, Combine, CheckIfSameReferenceType, SplitBlobMask, FillBlobMask, MostCenterMask and the filters. Centroid and Perimeter do not test for null, and the model does not either.
- `Dictionary` key order is modelled as insertion order. The merged counts of SplitBlobMask are entered in increasing root order, so the returned views come out in increasing label order.
- SplitBlobMask with a threshold below one: the documented `ArgumentOutOfRangeException` is never thrown by the code, which the model follows.
- The private `GetMappingsValue` (MaskOperations.cs:227-251) is unused, so it has no counterpart.
- CenterMask.MostCenterMask models an empty grid (width or height 0) as IndexOutOfRange. That is the first `GetCell` of the search reading outside the data. The exact exception type depends on the mask class.
- FillBlobMask on a view fills a private dense copy that is discarded. The model reproduces this: the view keeps its cells.
- `unsafe` pointer code in SplitBlobMask and SplitMaskMergerList is modelled as array indexing at the same positions.
- The floating-point descriptors (moments, axes, `GetNonOverlappingArea`) and the colour statistics of MaskOperations.cs are not modelled, as floating-point and pixel I/O. The other filters, the classifier and optimiser code and the programs' `Main` methods are not modelled either, being file, database and UI I/O.

## Findings

| source | as written | input that shows it | evidently intended | confidence | as-written member | corrected member |
|---|---|---|---|---|---|---|
| Research.MelanomaDetection/Research.Algorithms/Mask.cs:90 | `if (mask != null)` tests the argument, which is never null there, so a view argument reaches `normalMask.MaskData` with `normalMask == null` | a dense mask combined with any `SplitMask` (Add of a dense mask and a view): NullReference | `if (normalMask != null)`, so the scan branch combines views cell by cell | high (not executed) | Masks.Mask.Combine | Masks.Mask.CombineCorrected |
| Research.MelanomaDetection/Research.Algorithms/SplitMask.cs:95 | the fallback scan selects `_mask[index] == 0`, the unlabelled cells, instead of the view's own cells | plane [0], view of label 1, combined with an empty dense 1x1 mask: the result selects the cell | `_mask[index] == _value` | high (not executed) | Masks.ScanSelectsUnlabelledCell | Masks.SplitMask.CombineCorrected |
| Research.MelanomaDetection/Research.Algorithms/Operations/MaskOperations.cs:70 | `xAdjacent > 0 && yAdjacent > 0` never admits column 0 or row 0 as a neighbour, so holes touching them are split into pieces | a 2x1 grid with both cells unselected and minimum hole size 2: each cell is its own region of size 1 and both are filled | `xAdjacent >= 0 && yAdjacent >= 0` | high (not executed) | RegionGrowing.AsWrittenFillsWideHole | RegionGrowing.CorrectedKeepsWideHole |

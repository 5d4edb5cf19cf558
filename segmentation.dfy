/**
  SplitBlobMask: two-pass connected-component labelling with 4-connectivity.
  A raster scan gives every selected cell a provisional label taken from its
  left or upper neighbour (or a new one), and records in the merger table
  that the labels of a left and an upper neighbour belong together; the
  per-label counts are then added up per root, the plane is rewritten to
  roots, and one single-label view is returned per root whose area reaches
  the threshold.
*/
module Segmentation {
  import opened Wrappers
  import opened Grid
  import opened Masks
  import opened SpecializedDataStructures
  import opened Labelling

  ghost predicate LabelsIn(p: seq<int>, top: int)
  {
    forall i :: 0 <= i < |p| ==> 0 <= p[i] <= top
  }

  predicate StrictlyIncreasing(s: seq<int>)
  {
    forall a, b :: 0 <= a < b < |s| ==> s[a] < s[b]
  }

  /** After the scan has passed positions 0 .. n-1: those hold a label exactly where the cell is selected, the rest hold 0. */
  ghost predicate LabelledUpTo(p: seq<int>, cells: seq<bool>, n: int, top: int)
  {
    |p| == |cells| && 0 <= n <= |p| && LabelsIn(p, top) &&
    (forall i :: 0 <= i < n ==> (0 < p[i] <==> cells[i])) &&
    (forall i :: n <= i < |p| ==> p[i] == 0)
  }

  /** Adjacent labelled positions before n carry labels with one root in t. */
  ghost predicate ConnectedUpTo(p: seq<int>, t: seq<int>, width: int, n: int)
    requires Forest(t) && LabelsIn(p, |t|)
  {
    forall i, j :: 0 <= i < j < n && j < |p| && Adjacent(i, j, width) && 0 < p[i] && 0 < p[j] ==>
      Root(t, p[i]) == Root(t, p[j])
  }

  /** Labelled positions before n whose labels have one root in t are joined by a 4-path of selected cells. */
  ghost predicate JoinedUpTo(p: seq<int>, t: seq<int>, cells: seq<bool>, width: int, n: int)
    requires Forest(t)
  {
    n <= |p| &&
    forall i, j {:trigger FourConnected(cells, width, i, j)} :: 0 <= i < n && 0 <= j < n && 1 <= p[i] <= |t| && 1 <= p[j] <= |t| && Root(t, p[i]) == Root(t, p[j]) ==>
      FourConnected(cells, width, i, j)
  }

  /** The counts dictionary holds, for each label 1 .. top, its (positive) area in p. */
  ghost predicate CountsMatch(counts: map<int, int>, p: seq<int>, top: int)
  {
    (forall k :: k in counts <==> 1 <= k <= top) &&
    (forall k :: k in counts ==> counts[k] == LabelArea(p, k) && 1 <= counts[k])
  }

  /**
    The plane labels the 4-connected components of the cells: positive
    exactly on the selected cells, equal on every pair of 4-adjacent selected
    cells, and equal only on cells that a 4-path of selected cells joins.
  */
  ghost predicate IsLabelling(cells: seq<bool>, width: int, p: seq<int>)
  {
    |p| == |cells| &&
    (forall i :: 0 <= i < |p| ==> 0 <= p[i] && (0 < p[i] <==> cells[i])) &&
    (forall i, j :: 0 <= i < j < |p| && Adjacent(i, j, width) && 0 < p[i] && 0 < p[j] ==> p[i] == p[j]) &&
    (forall i, j {:trigger FourConnected(cells, width, i, j)} :: 0 <= i < |p| && 0 <= j < |p| && 0 < p[i] && p[i] == p[j] ==>
       FourConnected(cells, width, i, j))
  }

  /**
    The labels reported for plane p: increasing (hence distinct), each with an
    area of at least one cell and at least the threshold, and every label of p
    that reaches the threshold among them.
  */
  ghost predicate SignificantLabels(p: seq<int>, labels: seq<int>, threshold: int)
  {
    StrictlyIncreasing(labels) &&
    (forall j :: 0 <= j < |labels| ==> 0 < labels[j] && 1 <= LabelArea(p, labels[j]) && threshold <= LabelArea(p, labels[j])) &&
    (forall v :: 0 < v && 0 < LabelArea(p, v) && threshold <= LabelArea(p, v) ==> v in labels)
  }

  /** Where root `root` ends up once roots a and b are joined, the larger under the smaller. */
  function Joined(root: int, a: int, b: int): int
  {
    if a < b && root == b then a else if b < a && root == a then b else root
  }

  /** The single-label views of the given labels over one plane. */
  function Views(plane: array<int>, labels: seq<int>, width: int, height: int): (ms: seq<IMask>)
    ensures |ms| == |labels|
    ensures forall j :: 0 <= j < |labels| ==> ms[j] == Split(SplitMask(plane, labels[j], width, height))
  {
    seq(|labels|, j requires 0 <= j < |labels| => Split(SplitMask(plane, labels[j], width, height)))
  }

  /** The keys of order, in order, whose merged count reaches the threshold. */
  function Significant(order: seq<int>, merged: map<int, int>, threshold: int): (keep: seq<int>)
    requires forall r :: r in order ==> r in merged
    ensures forall r :: r in keep <==> r in order && threshold <= merged[r]
    ensures StrictlyIncreasing(order) ==> StrictlyIncreasing(keep)
    ensures |keep| <= |order|
  {
    if order == [] then []
    else
      var front := order[..|order| - 1];
      var last := order[|order| - 1];
      assert forall r :: r in front ==> r in order;
      var keep := Significant(front, merged, threshold);
      var result := keep + (if threshold <= merged[last] then [last] else []);
      assert StrictlyIncreasing(order) ==> StrictlyIncreasing(result) by {
        if StrictlyIncreasing(order) {
          assert StrictlyIncreasing(front);
          forall a, b | 0 <= a < b < |result|
            ensures result[a] < result[b]
          {
            if b == |keep| {
              assert result[a] == keep[a] && keep[a] in keep;
              var i :| 0 <= i < |front| && front[i] == keep[a];
              assert order[i] == keep[a];
            }
          }
        }
      }
      result
  }

  /** Lines 157-169: resolves both labels to their roots and links the larger root under the smaller. */
  method Merge(mappings: SplitMaskMergerList, leftValue: int, upValue: int)
    requires mappings.Valid() && 1 <= leftValue <= mappings.current && 1 <= upValue <= mappings.current
    modifies mappings.values
    ensures mappings.Valid()
    ensures Root(mappings.Table(), leftValue) == Root(mappings.Table(), upValue)
    ensures forall k :: 1 <= k <= mappings.current ==>
              Root(mappings.Table(), k) ==
              Joined(Root(old(mappings.Table()), k), Root(old(mappings.Table()), leftValue), Root(old(mappings.Table()), upValue))
  {
    ghost var t0 := mappings.Table();
    var left := mappings.GetValue(leftValue);
    ghost var tm := mappings.Table();
    var up := mappings.GetValue(upValue);
    ghost var t1 := mappings.Table();
    assert Root(t1, left) == left && Root(t1, up) == up;
    SameRootsTrans(t0, tm, t1);
    Link(mappings, left, up);
    JoinedRoots(t0, t1, mappings.Table(), leftValue, upValue, left, up);
  }

  /** Linking the roots of a and b joins exactly their two classes. */
  lemma JoinedRoots(t0: seq<int>, t1: seq<int>, t2: seq<int>, a: int, b: int, left: int, up: int)
    requires Forest(t0) && Forest(t1) && Forest(t2) && |t1| == |t0| && |t2| == |t0|
    requires 1 <= a <= |t0| && 1 <= b <= |t0| && left == Root(t0, a) && up == Root(t0, b)
    requires forall k :: 1 <= k <= |t0| ==> Root(t1, k) == Root(t0, k)
    requires forall k :: 1 <= k <= |t0| ==> Root(t2, k) == Joined(Root(t1, k), left, up)
    ensures Root(t2, a) == Root(t2, b)
    ensures forall k :: 1 <= k <= |t0| ==> Root(t2, k) == Joined(Root(t0, k), left, up)
  {
  }

  /** Lines 159-169: two roots that differ are joined, the larger pointing at the smaller. */
  method Link(mappings: SplitMaskMergerList, left: int, up: int)
    requires mappings.Valid() && 1 <= left <= mappings.current && 1 <= up <= mappings.current
    requires Root(mappings.Table(), left) == left && Root(mappings.Table(), up) == up
    modifies mappings.values
    ensures mappings.Valid()
    ensures forall k :: 1 <= k <= mappings.current ==>
              Root(mappings.Table(), k) == Joined(Root(old(mappings.Table()), k), left, up)
  {
    ghost var t1 := mappings.Table();
    if up != left {
      if up < left {
        mappings.SetValue(left, up);
        forall k | 1 <= k <= mappings.current
          ensures Root(mappings.Table(), k) == Joined(Root(t1, k), left, up)
        {
          LinkRoots(t1, left, up, k);
        }
      } else {
        mappings.SetValue(up, left);
        forall k | 1 <= k <= mappings.current
          ensures Root(mappings.Table(), k) == Joined(Root(t1, k), left, up)
        {
          LinkRoots(t1, up, left, k);
        }
      }
    }
  }

  /** What the raster scan keeps after positions 0 .. n-1: the labels, their connections in the table, and their counts. */
  ghost predicate ScanState(p: seq<int>, t: seq<int>, cells: seq<bool>, width: int, n: int, counts: map<int, int>)
  {
    Forest(t) && LabelledUpTo(p, cells, n, |t|) && ConnectedUpTo(p, t, width, n) &&
    JoinedUpTo(p, t, cells, width, n) && CountsMatch(counts, p, |t|)
  }

  /** One selected position of the raster scan (lines 137-182). */
  method ScanStep(scans: array<int>, mappings: SplitMaskMergerList, counts: map<int, int>,
                  index: int, width: int, ghost cells: seq<bool>)
    returns (newCounts: map<int, int>)
    requires scans != mappings.values
    requires mappings.Valid() && 0 < mappings.capacityIncrement
    requires 0 < width && 0 <= index < scans.Length && |cells| == scans.Length && cells[index]
    requires ScanState(scans[..], mappings.Table(), cells, width, index, counts)
    modifies scans, mappings, mappings.values
    ensures mappings.Valid()
    ensures mappings.values == old(mappings.values) || fresh(mappings.values)
    ensures ScanState(scans[..], mappings.Table(), cells, width, index + 1, newCounts)
  {
    var x := index % width;
    var y := index / width;
    PositionFacts(index, width);
    var leftValue := 0;
    if x > 0 {
      leftValue := scans[index - 1];
    }
    var upValue := 0;
    if y > 0 {
      upValue := scans[index - width];
    }
    if leftValue > 0 {
      newCounts := TakeLeft(scans, mappings, counts, index, width, cells, leftValue, upValue);
    } else if upValue > 0 {
      newCounts := TakeUp(scans, mappings, counts, index, width, cells, upValue);
    } else {
      newCounts := TakeNext(scans, mappings, counts, index, width, cells);
    }
  }

  /** Lines 149-170: the left neighbour's label; when the upper neighbour is labelled too, the two are merged. */
  method TakeLeft(scans: array<int>, mappings: SplitMaskMergerList, counts: map<int, int>,
                  index: int, width: int, ghost cells: seq<bool>, leftValue: int, upValue: int)
    returns (newCounts: map<int, int>)
    requires scans != mappings.values && mappings.Valid()
    requires 0 < width && 0 <= index < scans.Length && |cells| == scans.Length && cells[index]
    requires ScanState(scans[..], mappings.Table(), cells, width, index, counts)
    requires index % width != 0 && leftValue == scans[index - 1] && 0 < leftValue
    requires upValue == (if index >= width then scans[index - width] else 0)
    modifies scans, mappings.values
    ensures mappings.Valid() && mappings.values == old(mappings.values)
    ensures ScanState(scans[..], mappings.Table(), cells, width, index + 1, newCounts)
  {
    ghost var p0 := scans[..];
    ghost var t0 := mappings.Table();
    ScanLabels(p0, t0, cells, width, index, counts);
    scans[index] := leftValue;
    newCounts := counts[leftValue := counts[leftValue] + 1];
    if upValue > 0 {
      Merge(mappings, leftValue, upValue);
      JoinCoarser(t0, mappings.Table(), leftValue, upValue);
    } else {
      SameRootsCoarser(t0, mappings.Table());
      KeptThrough(t0, leftValue, leftValue, upValue);
    }
    assert scans[..] == p0[index := leftValue];
    ScanAdvance(p0, t0, mappings.Table(), cells, width, index, leftValue, leftValue, upValue, counts, newCounts);
  }

  /** Lines 172-176: no labelled left neighbour, so the upper neighbour's label. */
  method TakeUp(scans: array<int>, mappings: SplitMaskMergerList, counts: map<int, int>,
                index: int, width: int, ghost cells: seq<bool>, upValue: int)
    returns (newCounts: map<int, int>)
    requires scans != mappings.values && mappings.Valid()
    requires 0 < width && 0 <= index < scans.Length && |cells| == scans.Length && cells[index]
    requires ScanState(scans[..], mappings.Table(), cells, width, index, counts)
    requires index % width != 0 ==> scans[index - 1] <= 0
    requires index >= width && upValue == scans[index - width] && 0 < upValue
    modifies scans
    ensures ScanState(scans[..], mappings.Table(), cells, width, index + 1, newCounts)
  {
    ghost var p0 := scans[..];
    ghost var t0 := mappings.Table();
    ScanLabels(p0, t0, cells, width, index, counts);
    scans[index] := upValue;
    newCounts := counts[upValue := counts[upValue] + 1];
    SameRootsCoarser(t0, t0);
    KeptThrough(t0, upValue, 0, upValue);
    assert scans[..] == p0[index := upValue];
    ScanAdvance(p0, t0, t0, cells, width, index, upValue, 0, upValue, counts, newCounts);
  }

  /** Lines 177-182: neither neighbour is labelled, so a fresh key from the merger list, counted once. */
  method TakeNext(scans: array<int>, mappings: SplitMaskMergerList, counts: map<int, int>,
                  index: int, width: int, ghost cells: seq<bool>)
    returns (newCounts: map<int, int>)
    requires scans != mappings.values
    requires mappings.Valid() && 0 < mappings.capacityIncrement
    requires 0 < width && 0 <= index < scans.Length && |cells| == scans.Length && cells[index]
    requires ScanState(scans[..], mappings.Table(), cells, width, index, counts)
    requires index % width != 0 ==> scans[index - 1] <= 0
    requires index >= width ==> scans[index - width] <= 0
    modifies scans, mappings, mappings.values
    ensures mappings.Valid()
    ensures mappings.values == old(mappings.values) || fresh(mappings.values)
    ensures ScanState(scans[..], mappings.Table(), cells, width, index + 1, newCounts)
  {
    ghost var p0 := scans[..];
    ghost var t0 := mappings.Table();
    ScanLabels(p0, t0, cells, width, index, counts);
    var nextNumber := mappings.GetNext();
    ghost var t1 := mappings.Table();
    assert t1 == t0 + [|t0| + 1] && scans != mappings.values;
    ExtendCoarser(t0);
    scans[index] := nextNumber;
    newCounts := counts[nextNumber := 1];
    assert scans[..] == p0[index := nextNumber] && mappings.Table() == t1;
    ScanAdvance(p0, t0, t1, cells, width, index, nextNumber, 0, 0, counts, newCounts);
  }

  /** Before position n every label is a key of the table and has a count; position n is not labelled yet. */
  lemma ScanLabels(p: seq<int>, t: seq<int>, cells: seq<bool>, width: int, n: int, counts: map<int, int>)
    requires ScanState(p, t, cells, width, n, counts) && n < |p|
    ensures LabelsIn(p, |t|) && p[n] == 0
    ensures forall k :: 1 <= k <= |t| ==> k in counts
  {
  }

  /** A table that keeps every root of t0, possibly with keys added, is coarser. */
  lemma SameRootsCoarser(t0: seq<int>, t1: seq<int>)
    requires Forest(t0) && Forest(t1) && |t0| <= |t1|
    requires forall k :: 1 <= k <= |t0| ==> Root(t1, k) == Root(t0, k)
    ensures Coarser(t0, t1)
  {
  }

  /** A table extended by a fresh root is coarser, and no earlier key joins the fresh root's class. */
  lemma ExtendCoarser(t0: seq<int>)
    requires Forest(t0)
    ensures Forest(t0 + [|t0| + 1]) && Coarser(t0, t0 + [|t0| + 1])
    ensures JoinsThrough(t0, t0 + [|t0| + 1], |t0| + 1, 0, 0)
  {
    forall k | 1 <= k <= |t0|
      ensures Root(t0 + [|t0| + 1], k) == Root(t0, k)
    {
      ExtendKeepsRoots(t0, k);
    }
    SameRootsCoarser(t0, t0 + [|t0| + 1]);
  }

  /** Joining the classes of a and b is coarser, and the only class it makes is a's, out of the classes of a and b. */
  lemma JoinCoarser(t0: seq<int>, t1: seq<int>, a: int, b: int)
    requires Forest(t0) && Forest(t1) && |t0| == |t1| && 1 <= a <= |t0| && 1 <= b <= |t0|
    requires forall k :: 1 <= k <= |t0| ==> Root(t1, k) == Joined(Root(t0, k), Root(t0, a), Root(t0, b))
    ensures Coarser(t0, t1) && Root(t1, a) == Root(t1, b)
    ensures JoinsThrough(t0, t1, a, a, b)
  {
  }

  /** A table left as it was makes no new class: v's class is the class of the neighbour whose label v is. */
  lemma KeptThrough(t0: seq<int>, v: int, left: int, up: int)
    requires Forest(t0) && 1 <= v <= |t0| && (v == left || v == up)
    ensures JoinsThrough(t0, t0, v, left, up)
  {
  }

  /**
    How one scan step may change the table: two keys of t0 that t1 puts in
    one class were in one class of t0 already, or are in v's class; and v's
    class holds only keys of the classes of the labelled left and upper
    neighbours.
  */
  ghost predicate JoinsThrough(t0: seq<int>, t1: seq<int>, v: int, left: int, up: int)
    requires Forest(t0) && Forest(t1) && |t0| <= |t1| && 1 <= v <= |t1|
  {
    (forall a, b :: 1 <= a <= |t0| && 1 <= b <= |t0| && Root(t1, a) == Root(t1, b) ==>
       Root(t0, a) == Root(t0, b) || Root(t1, a) == Root(t1, v)) &&
    (forall a :: 1 <= a <= |t0| && Root(t1, a) == Root(t1, v) ==>
       (1 <= left <= |t0| && Root(t0, a) == Root(t0, left)) || (1 <= up <= |t0| && Root(t0, a) == Root(t0, up)))
  }

  /**
    Labelling position index with v advances the scan state: v is a known
    label whose count grows by one, or the fresh key the table was extended
    with, counted once; the table only merges classes and joins v with the
    labelled left and upper neighbours.
  */
  lemma ScanAdvance(p0: seq<int>, t0: seq<int>, t1: seq<int>, cells: seq<bool>, width: int, index: int, v: int,
                    left: int, up: int, counts: map<int, int>, newCounts: map<int, int>)
    requires ScanState(p0, t0, cells, width, index, counts) && Forest(t1) && Coarser(t0, t1)
    requires 0 < width && 0 <= index < |p0| && cells[index]
    requires (1 <= v <= |t0| && |t1| == |t0| && v in counts && newCounts == counts[v := counts[v] + 1]) ||
             (v == |t0| + 1 == |t1| && newCounts == counts[v := 1])
    requires left == (if index % width != 0 then p0[index - 1] else 0)
    requires up == (if index >= width then p0[index - width] else 0)
    requires 0 < left ==> 1 <= left <= |t1| && Root(t1, left) == Root(t1, v)
    requires 0 < up ==> 1 <= up <= |t1| && Root(t1, up) == Root(t1, v)
    requires JoinsThrough(t0, t1, v, left, up)
    ensures ScanState(p0[index := v], t1, cells, width, index + 1, newCounts)
  {
    ScanLabels(p0, t0, cells, width, index, counts);
    StepLabels(p0, t0, t1, cells, index, width, v);
    StepJoined(p0, t0, t1, cells, index, width, v, left, up);
    StepCounts(counts, p0, index, v, |t0|, |t1|);
    if v == |t0| + 1 {
      assert v !in counts;
    }
  }

  /** t1 merges classes of t0 but never splits one; keys beyond t0 may be added. */
  ghost predicate Coarser(t0: seq<int>, t1: seq<int>)
    requires Forest(t0) && Forest(t1)
  {
    |t0| <= |t1| &&
    forall a, b :: 1 <= a <= |t0| && 1 <= b <= |t0| && Root(t0, a) == Root(t0, b) ==> Root(t1, a) == Root(t1, b)
  }

  /** Labelling position index with v, in a table that joins v with its labelled left and upper neighbours, extends the scan invariants. */
  lemma StepLabels(p0: seq<int>, t0: seq<int>, t1: seq<int>, cells: seq<bool>, index: int, width: int, v: int)
    requires Forest(t0) && Forest(t1) && Coarser(t0, t1)
    requires 0 < width && 0 <= index < |p0| && 1 <= v <= |t1|
    requires LabelledUpTo(p0, cells, index, |t0|) && ConnectedUpTo(p0, t0, width, index) && cells[index]
    requires index % width != 0 && 0 < p0[index - 1] ==> Root(t1, p0[index - 1]) == Root(t1, v)
    requires index >= width && 0 < p0[index - width] ==> Root(t1, p0[index - width]) == Root(t1, v)
    ensures LabelledUpTo(p0[index := v], cells, index + 1, |t1|)
    ensures ConnectedUpTo(p0[index := v], t1, width, index + 1)
  {
    var p1 := p0[index := v];
    forall i, j | 0 <= i < j < index + 1 && j < |p1| && Adjacent(i, j, width) && 0 < p1[i] && 0 < p1[j]
      ensures Root(t1, p1[i]) == Root(t1, p1[j])
    {
      if j < index {
        assert Root(t0, p0[i]) == Root(t0, p0[j]);
      }
    }
  }

  /** Labelling position index with v keeps labels of one class joined by selected 4-paths. */
  lemma StepJoined(p0: seq<int>, t0: seq<int>, t1: seq<int>, cells: seq<bool>, index: int, width: int, v: int, left: int, up: int)
    requires Forest(t0) && Forest(t1) && |t0| <= |t1| && 1 <= v <= |t1|
    requires LabelledUpTo(p0, cells, index, |t0|) && JoinedUpTo(p0, t0, cells, width, index)
    requires 0 < width && 0 <= index < |p0| && cells[index]
    requires left == (if index % width != 0 then p0[index - 1] else 0)
    requires up == (if index >= width then p0[index - width] else 0)
    requires JoinsThrough(t0, t1, v, left, up)
    ensures JoinedUpTo(p0[index := v], t1, cells, width, index + 1)
  {
    var p1 := p0[index := v];
    forall i, j | 0 <= i < index + 1 && 0 <= j < index + 1 && 1 <= p1[i] <= |t1| && 1 <= p1[j] <= |t1| &&
                  Root(t1, p1[i]) == Root(t1, p1[j])
      ensures FourConnected(cells, width, i, j)
    {
      if i == index && j == index {
        ConnectedSelf(cells, width, index);
      } else if i == index {
        JoinedToCurrent(p0, t0, t1, cells, index, width, v, left, up, j);
      } else if j == index {
        JoinedToCurrent(p0, t0, t1, cells, index, width, v, left, up, i);
      } else if Root(t0, p0[i]) != Root(t0, p0[j]) {
        JoinedToCurrent(p0, t0, t1, cells, index, width, v, left, up, i);
        JoinedToCurrent(p0, t0, t1, cells, index, width, v, left, up, j);
        ConnectedTrans(cells, width, i, index, j);
      }
    }
  }

  /** A labelled position before index that ends up in v's class is joined to index through the left or the upper neighbour. */
  lemma JoinedToCurrent(p0: seq<int>, t0: seq<int>, t1: seq<int>, cells: seq<bool>, index: int, width: int, v: int,
                        left: int, up: int, i: int)
    requires Forest(t0) && Forest(t1) && |t0| <= |t1| && 1 <= v <= |t1|
    requires LabelledUpTo(p0, cells, index, |t0|) && JoinedUpTo(p0, t0, cells, width, index)
    requires 0 < width && 0 <= index < |p0| && cells[index]
    requires left == (if index % width != 0 then p0[index - 1] else 0)
    requires up == (if index >= width then p0[index - width] else 0)
    requires JoinsThrough(t0, t1, v, left, up)
    requires 0 <= i < index && 0 < p0[i] && Root(t1, p0[i]) == Root(t1, v)
    ensures FourConnected(cells, width, i, index) && FourConnected(cells, width, index, i)
  {
    var n := if 1 <= left <= |t0| && Root(t0, p0[i]) == Root(t0, left) then index - 1 else index - width;
    assert 0 <= n < index && 0 < p0[n] && Root(t0, p0[i]) == Root(t0, p0[n]) && Neighbours(n, index, width);
    ConnectedExtend(cells, width, i, n, index);
    ConnectedPrepend(cells, width, index, n, i);
  }

  /** Writing a fresh or existing label v at an unlabelled position adds one to its count. */
  lemma StepCounts(counts: map<int, int>, p0: seq<int>, index: int, v: int, top0: int, top1: int)
    requires CountsMatch(counts, p0, top0) && LabelsIn(p0, top0) && 0 <= index < |p0| && p0[index] == 0
    requires (1 <= v <= top0 && top1 == top0) || (v == top0 + 1 == top1)
    ensures CountsMatch(counts[v := if v in counts then counts[v] + 1 else 1], p0[index := v], top1)
  {
    forall k | 1 <= k <= top1
      ensures LabelArea(p0[index := v], k) == LabelArea(p0, k) + (if v == k then 1 else 0)
    {
      AreaUpdate(p0, index, v, k);
    }
    if v == top0 + 1 {
      assert LabelArea(p0, v) == 0 by {
        if 0 < LabelArea(p0, v) {
          AreaPositive(p0, v);
        }
      }
    }
  }

  /** x = index % width is positive exactly off the first column, y = index / width exactly off the first row. */
  lemma PositionFacts(index: int, width: int)
    requires 0 <= index && 0 < width
    ensures 0 <= index % width < width
    ensures index % width > 0 <==> index % width != 0
    ensures index / width > 0 <==> index >= width
  {
    var q, m := index / width, index % width;
    assert q * width + m == index;
    if q <= 0 {
      assert q == 0;
    } else {
      MulLeq(1, q, width);
    }
  }

  /** The raster scan (lines 130-184): provisional labels, their counts, and the merges they need. */
  method RasterScan(blobMask: IMask, scans: array<int>, mappings: SplitMaskMergerList) returns (counts: map<int, int>)
    requires blobMask.Valid() && scans.Length == blobMask.Width() * blobMask.Height()
    requires mappings.Valid() && mappings.current == 0 && 0 < mappings.capacityIncrement
    requires forall i :: 0 <= i < scans.Length ==> scans[i] == 0
    requires scans !in blobMask.Repr() && mappings.values !in blobMask.Repr() && scans != mappings.values
    modifies scans, mappings, mappings.values
    ensures mappings.Valid()
    ensures mappings.values == old(mappings.values) || fresh(mappings.values)
    ensures ScanState(scans[..], mappings.Table(), blobMask.Cells(), blobMask.Width(), scans.Length, counts)
  {
    ghost var cells := blobMask.Cells();
    var width := blobMask.Width();
    var height := blobMask.Height();
    counts := map[];
    var index := 0;
    ScanStart(scans[..], mappings.Table(), cells, width);
    while index < scans.Length
      invariant 0 <= index <= scans.Length
      invariant mappings.Valid() && 0 < mappings.capacityIncrement
      invariant mappings.values == old(mappings.values) || fresh(mappings.values)
      invariant blobMask.Cells() == cells
      invariant ScanState(scans[..], mappings.Table(), cells, width, index, counts)
    {
      counts := ScanCell(blobMask, scans, mappings, counts, index, width, height, cells);
      index := index + 1;
    }
  }

  /** Lines 132-183: one position of the raster scan, labelled when the mask selects its cell. */
  method ScanCell(blobMask: IMask, scans: array<int>, mappings: SplitMaskMergerList, counts: map<int, int>,
                  index: int, width: int, height: int, ghost cells: seq<bool>)
    returns (newCounts: map<int, int>)
    requires blobMask.Valid() && cells == blobMask.Cells() && width == blobMask.Width() && height == blobMask.Height()
    requires scans.Length == width * height && 0 <= index < scans.Length
    requires mappings.Valid() && 0 < mappings.capacityIncrement
    requires scans !in blobMask.Repr() && mappings.values !in blobMask.Repr() && scans != mappings.values
    requires ScanState(scans[..], mappings.Table(), cells, width, index, counts)
    modifies scans, mappings, mappings.values
    ensures mappings.Valid() && 0 < mappings.capacityIncrement
    ensures mappings.values == old(mappings.values) || fresh(mappings.values)
    ensures ScanState(scans[..], mappings.Table(), cells, width, index + 1, newCounts)
  {
    ghost var column, row := CellOf(index, width, height);
    var x := index % width;
    var y := index / width;
    var isMask := blobMask.GetCell(x, y);
    assert isMask == cells[index];
    if isMask {
      newCounts := ScanStep(scans, mappings, counts, index, width, cells);
    } else {
      newCounts := counts;
      ScanSkip(scans[..], mappings.Table(), cells, width, index, counts);
    }
  }

  /** Before the scan nothing is labelled and the table is empty. */
  lemma ScanStart(p: seq<int>, t: seq<int>, cells: seq<bool>, width: int)
    requires |p| == |cells| && t == [] && forall i :: 0 <= i < |p| ==> p[i] == 0
    ensures ScanState(p, t, cells, width, 0, map[])
  {
  }

  /** An unselected position keeps its zero and the scan state moves past it. */
  lemma ScanSkip(p: seq<int>, t: seq<int>, cells: seq<bool>, width: int, n: int, counts: map<int, int>)
    requires ScanState(p, t, cells, width, n, counts) && n < |p| && !cells[n]
    ensures ScanState(p, t, cells, width, n + 1, counts)
  {
  }

  /**
    Lines 186-199: resolves every key, adding its count to its root's total; a
    root is entered (and remembered in insertion order) when the loop reaches
    it, which is before any key below it in its class. Afterwards every entry
    of the table is its key's root.
  */
  method MergeCounts(mappings: SplitMaskMergerList, counts: map<int, int>, ghost s: seq<int>, ghost t0: seq<int>)
    returns (merged: map<int, int>, order: seq<int>)
    requires mappings.Valid() && t0 == mappings.Table() && CountsMatch(counts, s, mappings.current)
    modifies mappings.values
    ensures MergeState(mappings, counts, merged, order, s, t0, mappings.current)
  {
    merged := map[];
    order := [];
    MergeStart(mappings, counts, s, t0);
    var lastKey := mappings.HighestKey();
    var done := 0;
    while done < lastKey
      invariant 0 <= done <= lastKey == mappings.current && MergeState(mappings, counts, merged, order, s, t0, done)
    {
      merged, order := MergeKey(mappings, counts, merged, order, done + 1, s, t0);
      done := done + 1;
    }
    assert done == mappings.current;
  }

  /** Before the merge loop nothing is resolved or merged yet. */
  lemma MergeStart(mappings: SplitMaskMergerList, counts: map<int, int>, s: seq<int>, t0: seq<int>)
    requires mappings.Valid() && t0 == mappings.Table() && CountsMatch(counts, s, mappings.current)
    ensures MergeState(mappings, counts, map[], [], s, t0, 0)
  {
    assert MergedUpTo(map[], [], s, t0, 0);
  }

  /** What the merge loop keeps after keys 1 .. done: the table resolved up to done, and the counts merged up to done. */
  ghost predicate MergeState(mappings: SplitMaskMergerList, counts: map<int, int>, merged: map<int, int>, order: seq<int>,
                             s: seq<int>, t0: seq<int>, done: int)
    reads mappings, mappings.values
  {
    ResolvedUpTo(mappings, t0, done) && CountsMatch(counts, s, mappings.current) && MergedUpTo(merged, order, s, t0, done)
  }

  /** One turn of the loop at lines 188-199: resolve the key, then add its count to its root's total. */
  method MergeKey(mappings: SplitMaskMergerList, counts: map<int, int>, merged: map<int, int>, order: seq<int>,
                  key: int, ghost s: seq<int>, ghost t0: seq<int>)
    returns (merged': map<int, int>, order': seq<int>)
    requires 1 <= key <= mappings.current && MergeState(mappings, counts, merged, order, s, t0, key - 1)
    modifies mappings.values
    ensures MergeState(mappings, counts, merged', order', s, t0, key)
  {
    var value := ResolveKey(mappings, key, t0);
    assert key in counts;
    merged', order' := AddCount(merged, order, key, value, counts[key], s, t0);
  }

  /** The merged counts after keys 1 .. n: one entry per root so far, holding the area of its class, roots listed in increasing order. */
  ghost predicate MergedUpTo(merged: map<int, int>, order: seq<int>, s: seq<int>, t: seq<int>, n: int)
    requires Forest(t) && 0 <= n <= |t|
  {
    (forall r :: r in merged <==> 1 <= r <= n && Root(t, r) == r) &&
    (forall r :: r in merged ==> merged[r] == ClassArea(s, t, r, n)) &&
    (forall r :: r in order <==> r in merged) &&
    StrictlyIncreasing(order) && (forall j :: 0 <= j < |order| ==> order[j] <= n)
  }

  /** Lines 190-198 after the lookup: a root opens its entry in the merged counts, any other key adds to its root's. */
  method AddCount(merged: map<int, int>, order: seq<int>, key: int, value: int, area: int, ghost s: seq<int>, ghost t: seq<int>)
    returns (merged': map<int, int>, order': seq<int>)
    requires Forest(t) && 1 <= key <= |t| && MergedUpTo(merged, order, s, t, key - 1)
    requires value == Root(t, key) && area == LabelArea(s, key)
    ensures MergedUpTo(merged', order', s, t, key)
  {
    MergeStep(merged, order, s, t, key, value, area);
    if key == value {
      merged' := merged[value := area];
      order' := order + [value];
    } else {
      merged' := merged[value := merged[value] + area];
      order' := order;
    }
  }

  /** One iteration of the merge loop: a root opens its entry, any other key adds its area to its root's. */
  lemma MergeStep(merged: map<int, int>, order: seq<int>, s: seq<int>, t: seq<int>, key: int, value: int, area: int)
    requires Forest(t) && 1 <= key <= |t| && MergedUpTo(merged, order, s, t, key - 1)
    requires value == Root(t, key) && area == LabelArea(s, key)
    ensures value == key ==> MergedUpTo(merged[value := area], order + [value], s, t, key)
    ensures value != key ==> value in merged && MergedUpTo(merged[value := merged[value] + area], order, s, t, key)
  {
    if value == key {
      OpenRoot(merged, order, s, t, key);
    } else {
      assert Root(t, value) == value;
      AddToRoot(merged, order, s, t, key);
    }
  }

  lemma OpenRoot(merged: map<int, int>, order: seq<int>, s: seq<int>, t: seq<int>, key: int)
    requires Forest(t) && 1 <= key <= |t| && MergedUpTo(merged, order, s, t, key - 1) && Root(t, key) == key
    ensures MergedUpTo(merged[key := LabelArea(s, key)], order + [key], s, t, key)
  {
    ClassAreaBelow(s, t, key, key - 1);
    var m := merged[key := LabelArea(s, key)];
    var o := order + [key];
    forall r | r in m
      ensures m[r] == ClassArea(s, t, r, key)
    {
      if r != key {
        assert m[r] == merged[r];
      }
    }
    forall a, b | 0 <= a < b < |o|
      ensures o[a] < o[b]
    {
      if b == |order| {
        assert o[a] == order[a];
      }
    }
  }

  lemma AddToRoot(merged: map<int, int>, order: seq<int>, s: seq<int>, t: seq<int>, key: int)
    requires Forest(t) && 1 <= key <= |t| && MergedUpTo(merged, order, s, t, key - 1)
    requires Root(t, key) != key && Root(t, key) in merged
    ensures MergedUpTo(merged[Root(t, key) := merged[Root(t, key)] + LabelArea(s, key)], order, s, t, key)
  {
    var value := Root(t, key);
    var m := merged[value := merged[value] + LabelArea(s, key)];
    forall r | r in m
      ensures m[r] == ClassArea(s, t, r, key)
    {
      if r != value {
        assert m[r] == merged[r];
      }
    }
    forall r
      ensures r in m <==> 1 <= r <= key && Root(t, r) == r
    {
    }
  }

  /**
    The merge loop's view of the table: it keeps the roots of the table t0 it
    started from, and keys 1 .. n already point straight at them.
  */
  ghost predicate ResolvedUpTo(mappings: SplitMaskMergerList, t0: seq<int>, n: int)
    reads mappings, mappings.values
  {
    mappings.Valid() && Forest(t0) && |t0| == mappings.current && 0 <= n <= mappings.current &&
    (forall k :: 1 <= k <= mappings.current ==> Root(mappings.Table(), k) == Root(t0, k)) &&
    (forall i :: 0 <= i < n ==> mappings.Table()[i] == Root(t0, i + 1))
  }

  /** Line 190: GetValue on the next key keeps the entries of the keys before it at their roots and sets its own. */
  method ResolveKey(mappings: SplitMaskMergerList, key: int, ghost t0: seq<int>) returns (value: int)
    requires 1 <= key && ResolvedUpTo(mappings, t0, key - 1) && key <= mappings.current
    modifies mappings.values
    ensures ResolvedUpTo(mappings, t0, key) && value == Root(t0, key)
  {
    ghost var t := mappings.Table();
    value := mappings.GetValue(key);
    CompressedRoots(t, t0, mappings.Table(), key, value);
  }

  /** Lines 202-212: every labelled position of the plane is rewritten to its root. */
  method ResolvePlane(scans: array<int>, mappings: SplitMaskMergerList, ghost t0: seq<int>)
    requires scans != mappings.values && ResolvedUpTo(mappings, t0, mappings.current)
    requires LabelsIn(scans[..], mappings.current)
    modifies scans
    ensures scans[..] == Resolved(old(scans[..]), t0)
  {
    ghost var s := scans[..];
    var index := 0;
    while index < scans.Length
      invariant 0 <= index <= scans.Length
      invariant forall i :: 0 <= i < index ==> scans[i] == Resolved(s, t0)[i]
      invariant forall i :: index <= i < scans.Length ==> scans[i] == s[i]
    {
      var currentValue := scans[index];
      if currentValue > 0 {
        scans[index] := mappings.GetValueRawAccess(currentValue);
      }
      index := index + 1;
    }
  }

  /** Lines 214-221: one view of the plane per merged root, in dictionary order, whose count reaches the threshold. */
  method SelectBlobs(scans: array<int>, merged: map<int, int>, order: seq<int>, significanceArea: int, width: int, height: int)
    returns (masks: seq<IMask>)
    requires forall r :: r in order ==> r in merged
    ensures masks == Views(scans, Significant(order, merged, significanceArea), width, height)
  {
    masks := [];
    ghost var keep: seq<int> := [];
    var n := 0;
    while n < |order|
      invariant 0 <= n <= |order|
      invariant forall r :: r in order[..n] ==> r in merged
      invariant keep == Significant(order[..n], merged, significanceArea)
      invariant masks == Views(scans, keep, width, height)
    {
      var key := order[n];
      SignificantStep(order, merged, significanceArea, n);
      if merged[key] >= significanceArea {
        ViewsAppend(scans, keep, key, width, height);
        masks := masks + [Split(SplitMask(scans, key, width, height))];
        keep := keep + [key];
      }
      n := n + 1;
    }
    assert order[..n] == order;
  }

  /** Significant over one more key of the order appends that key exactly when its count reaches the threshold. */
  lemma SignificantStep(order: seq<int>, merged: map<int, int>, threshold: int, n: int)
    requires 0 <= n < |order| && forall r :: r in order ==> r in merged
    ensures forall r :: r in order[..n] ==> r in merged
    ensures Significant(order[..n + 1], merged, threshold) ==
            Significant(order[..n], merged, threshold) + (if threshold <= merged[order[n]] then [order[n]] else [])
  {
    assert order[..n + 1][..n] == order[..n];
    assert forall r :: r in order[..n + 1] ==> r in order;
  }

  /** The views of one more label are the views so far followed by that label's view. */
  lemma ViewsAppend(plane: array<int>, labels: seq<int>, v: int, width: int, height: int)
    ensures Views(plane, labels + [v], width, height) == Views(plane, labels, width, height) + [Split(SplitMask(plane, v, width, height))]
  {
  }

  /**
    SplitBlobMask (lines 111-225). A missing mask is rejected. Otherwise the
    returned views read one fresh plane that labels the input's cells, and
    they are the views of exactly the labels whose area reaches the
    threshold, in increasing order (the order the merge loop enters roots).
  */
  method SplitBlobMask(blobMask: Option<IMask>, significanceArea: int)
    returns (r: Result<seq<IMask>>, ghost plane: array?<int>, ghost labels: seq<int>)
    requires blobMask.Some? ==> blobMask.value.Valid()
    ensures blobMask.None? <==> r.Err?
    ensures blobMask.None? ==> r == Err(ArgumentNull)
    ensures blobMask.Some? ==>
              plane != null && fresh(plane) && plane !in blobMask.value.Repr() &&
              IsLabelling(blobMask.value.Cells(), blobMask.value.Width(), plane[..]) &&
              SignificantLabels(plane[..], labels, significanceArea) &&
              r == Ok(Views(plane, labels, blobMask.value.Width(), blobMask.value.Height()))
  {
    if blobMask.None? {
      return Err(ArgumentNull), null, [];
    }
    var mask := blobMask.value;
    var scans, merged, order := LabelComponents(mask, significanceArea);
    var masks := SelectBlobs(scans, merged, order, significanceArea, mask.Width(), mask.Height());
    return Ok(masks), scans, Significant(order, merged, significanceArea);
  }

  /**
    Lines 116-212: the scan, the merge and the rewrite to roots. The plane
    then labels the 4-connected components of the mask's cells, and the
    merged counts select its labels that reach the threshold.
  */
  method LabelComponents(mask: IMask, significanceArea: int)
    returns (scans: array<int>, merged: map<int, int>, order: seq<int>)
    requires mask.Valid()
    ensures fresh(scans) && forall r :: r in order ==> r in merged
    ensures IsLabelling(mask.Cells(), mask.Width(), scans[..])
    ensures SignificantLabels(scans[..], Significant(order, merged, significanceArea), significanceArea)
  {
    var mappings, counts;
    ghost var s, t;
    scans, mappings, counts, merged, order, s, t := ScanAndMerge(mask);
    label Scanned:
    ScanResult(mask.Cells(), mask.Width(), s, t, counts, merged, order, significanceArea);
    ResolvePlane(scans, mappings, t);
    CellsKept@Scanned(mask);
  }

  /** Lines 123-199: the raster scan and the merge of the counts, on a fresh plane and a fresh table. */
  method ScanAndMerge(mask: IMask)
    returns (scans: array<int>, mappings: SplitMaskMergerList, counts: map<int, int>,
             merged: map<int, int>, order: seq<int>, ghost s: seq<int>, ghost t: seq<int>)
    requires mask.Valid()
    ensures fresh(scans) && fresh(mappings) && scans != mappings.values
    ensures scans.Length == |mask.Cells()| && scans[..] == s && Forest(t)
    ensures ScanState(s, t, mask.Cells(), mask.Width(), |s|, counts)
    ensures MergedUpTo(merged, order, s, t, |t|) && ResolvedUpTo(mappings, t, mappings.current)
  {
    var width := mask.Width();
    var height := mask.Height();
    var size := width * height;
    scans := new int[size](_ => 0);
    mappings := new SplitMaskMergerList((width * 5) + 1, (width / 2) + 1);
    counts := RasterScan(mask, scans, mappings);
    label Scanned:
    s := scans[..];
    t := mappings.Table();
    merged, order := MergeCounts(mappings, counts, s, t);
    CellsKept@Scanned(mask);
  }

  /** What the four passes establish together: the resolved plane labels the cells, and the selection picks its significant labels. */
  lemma ScanResult(cells: seq<bool>, width: int, s: seq<int>, t: seq<int>, counts: map<int, int>,
                   merged: map<int, int>, order: seq<int>, threshold: int)
    requires ScanState(s, t, cells, width, |s|, counts) && MergedUpTo(merged, order, s, t, |t|)
    ensures IsLabelling(cells, width, Resolved(s, t))
    ensures SignificantLabels(Resolved(s, t), Significant(order, merged, threshold), threshold)
  {
    ResolvedLabelling(cells, width, s, t);
    SelectedSignificant(s, t, counts, merged, order, threshold);
  }

  /** Replacing every label of the scan by its root gives a labelling of the cells. */
  lemma ResolvedLabelling(cells: seq<bool>, width: int, s: seq<int>, t: seq<int>)
    requires Forest(t) && LabelledUpTo(s, cells, |s|, |t|) && ConnectedUpTo(s, t, width, |s|)
    requires JoinedUpTo(s, t, cells, width, |s|)
    ensures IsLabelling(cells, width, Resolved(s, t))
  {
    var p := Resolved(s, t);
    forall i, j | 0 <= i < j < |p| && Adjacent(i, j, width) && 0 < p[i] && 0 < p[j]
      ensures p[i] == p[j]
    {
      assert 0 < s[i] && 0 < s[j];
    }
    forall i, j | 0 <= i < |p| && 0 <= j < |p| && 0 < p[i] && p[i] == p[j]
      ensures FourConnected(cells, width, i, j)
    {
      assert 0 < s[i] && 0 < s[j] && Root(t, s[i]) == Root(t, s[j]);
    }
  }

  /** The roots kept by the selection of lines 215-221 are exactly the labels of the resolved plane that reach the threshold. */
  lemma SelectedSignificant(s: seq<int>, t: seq<int>, counts: map<int, int>, merged: map<int, int>, order: seq<int>, threshold: int)
    requires Forest(t) && LabelsIn(s, |t|)
    requires CountsMatch(counts, s, |t|) && MergedUpTo(merged, order, s, t, |t|)
    ensures SignificantLabels(Resolved(s, t), Significant(order, merged, threshold), threshold)
  {
    var p := Resolved(s, t);
    var keep := Significant(order, merged, threshold);
    forall r | r in merged
      ensures merged[r] == LabelArea(p, r) && 1 <= merged[r]
    {
      ClassAreaIsResolvedArea(s, t, r);
      ClassAreaAtLeast(s, t, r, |t|);
    }
    forall j | 0 <= j < |keep|
      ensures 0 < keep[j] && 1 <= LabelArea(p, keep[j]) && threshold <= LabelArea(p, keep[j])
    {
      assert keep[j] in keep;
    }
    forall v | 0 < v && 0 < LabelArea(p, v) && threshold <= LabelArea(p, v)
      ensures v in keep
    {
      RootKept(s, t, merged, order, threshold, v);
    }
  }

  /** A label of the resolved plane whose area reaches the threshold is a root with that total, so the selection keeps it. */
  lemma RootKept(s: seq<int>, t: seq<int>, merged: map<int, int>, order: seq<int>, threshold: int, v: int)
    requires Forest(t) && LabelsIn(s, |t|) && MergedUpTo(merged, order, s, t, |t|)
    requires 0 < v && threshold <= LabelArea(Resolved(s, t), v) && 0 < LabelArea(Resolved(s, t), v)
    ensures v in Significant(order, merged, threshold)
  {
    var p := Resolved(s, t);
    AreaPositive(p, v);
    var i :| 0 <= i < |p| && p[i] == v;
    assert Root(t, s[i]) == v;
    ClassAreaIsResolvedArea(s, t, v);
  }

  /** Every returned view selects only cells of the input. */
  lemma BlobsInsideInput(cells: seq<bool>, width: int, p: seq<int>, labels: seq<int>, threshold: int)
    requires IsLabelling(cells, width, p) && SignificantLabels(p, labels, threshold)
    ensures forall j, i :: 0 <= j < |labels| && 0 <= i < |p| && LabelCells(p, labels[j])[i] ==> cells[i]
  {
  }

  /** Two returned views never share a cell. */
  lemma BlobsDisjoint(p: seq<int>, labels: seq<int>, threshold: int)
    requires SignificantLabels(p, labels, threshold)
    ensures forall a, b, i :: 0 <= a < b < |labels| && 0 <= i < |p| ==> !(LabelCells(p, labels[a])[i] && LabelCells(p, labels[b])[i])
  {
  }

  /** Along a 4-path of selected cells a labelling keeps one label. */
  lemma {:induction false} PathOneLabel(cells: seq<bool>, width: int, p: seq<int>, path: seq<int>)
    requires IsLabelling(cells, width, p) && PositionPath(cells, width, path)
    ensures p[path[|path| - 1]] == p[path[0]]
    decreases |path|
  {
    if |path| > 1 {
      var front := path[..|path| - 1];
      assert forall k :: 0 <= k < |front| ==> front[k] == path[k];
      assert PositionPath(cells, width, front);
      PathOneLabel(cells, width, p, front);
      assert Neighbours(path[|path| - 2], path[|path| - 1], width);
    }
  }

  /** In a labelling, a selected cell and any other carry one label exactly when a 4-path of selected cells joins them. */
  lemma LabelIffConnected(cells: seq<bool>, width: int, p: seq<int>, i: int, j: int)
    requires IsLabelling(cells, width, p) && 0 <= i < |p| && 0 <= j < |p| && cells[i]
    ensures p[i] == p[j] <==> FourConnected(cells, width, i, j)
  {
    if FourConnected(cells, width, i, j) {
      var path :| PositionPath(cells, width, path) && path[0] == i && path[|path| - 1] == j;
      PathOneLabel(cells, width, p, path);
    }
  }

  /** Every returned view is one whole 4-connected component: it holds a cell exactly when a selected 4-path joins it to any cell of the view. */
  lemma BlobsAreComponents(cells: seq<bool>, width: int, p: seq<int>, labels: seq<int>, threshold: int)
    requires IsLabelling(cells, width, p) && SignificantLabels(p, labels, threshold)
    ensures forall j, i, k :: 0 <= j < |labels| && 0 <= i < |p| && 0 <= k < |p| && LabelCells(p, labels[j])[i] ==>
              (LabelCells(p, labels[j])[k] <==> FourConnected(cells, width, i, k))
  {
    forall j, i, k | 0 <= j < |labels| && 0 <= i < |p| && 0 <= k < |p| && LabelCells(p, labels[j])[i]
      ensures LabelCells(p, labels[j])[k] <==> FourConnected(cells, width, i, k)
    {
      LabelIffConnected(cells, width, p, i, k);
    }
  }

  /** A path that starts in a set of positions closed under selected 4-neighbours ends in it. */
  lemma {:induction false} PathStaysIn(cells: seq<bool>, width: int, region: set<int>, path: seq<int>)
    requires PositionPath(cells, width, path) && path[0] in region
    requires forall a, x :: a in region && 0 <= x < |cells| && cells[x] && Neighbours(a, x, width) ==> x in region
    ensures path[|path| - 1] in region
    decreases |path|
  {
    if 1 < |path| {
      var front := path[..|path| - 1];
      assert forall k :: 0 <= k < |front| ==> front[k] == path[k];
      assert PositionPath(cells, width, front);
      PathStaysIn(cells, width, region, front);
      assert Neighbours(path[|path| - 2], path[|path| - 1], width);
    }
  }

  /** Two selected cells with an unselected one between them are two components, so one label on both is no labelling. */
  lemma GapSplitsLabel()
    ensures !IsLabelling([true, false, true], 3, [1, 0, 1])
  {
    var cells := [true, false, true];
    var first: set<int> := {0};
    assert forall a, x :: a in first && 0 <= x < |cells| && cells[x] && Neighbours(a, x, 3) ==> x in first;
    forall path | PositionPath(cells, 3, path) && path[0] == 0
      ensures path[|path| - 1] != 2
    {
      PathStaysIn(cells, 3, first, path);
    }
    assert !FourConnected(cells, 3, 0, 2);
  }

  /** An input without selected cells gives no views. */
  lemma NoCellsNoBlobs(cells: seq<bool>, width: int, p: seq<int>, labels: seq<int>, threshold: int)
    requires IsLabelling(cells, width, p) && SignificantLabels(p, labels, threshold)
    requires forall i :: 0 <= i < |cells| ==> !cells[i]
    ensures labels == []
  {
    if labels != [] {
      AreaPositive(p, labels[0]);
    }
  }
}

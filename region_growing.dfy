/**
  FillBlobMask: hole filling by breadth-first search. Every unselected cell
  not yet explored seeds a search through unselected cells of its 3x3
  neighbourhood; a region found this way is set to selected when it has
  fewer cells than the minimum hole size. The neighbour test of the search
  admits only cells with column and row at least `lo`: 1 as written, 0 as
  evidently intended.
*/
module RegionGrowing {
  import opened Wrappers
  import opened Grid
  import opened Masks
  import opened MaskOperations

  /** Point p is a cell of the grid that is unselected in the row-major cells. */
  ghost predicate Hole(cells: seq<bool>, width: int, height: int, p: Point)
  {
    InGrid(p.x, p.y, width, height) && Index(p.x, p.y, width) < |cells| && !cells[Index(p.x, p.y, width)]
  }

  /** The neighbour test of line 70: q lies in the 3x3 block around p, at column and row at least lo, inside the grid. */
  predicate Step(p: Point, q: Point, width: int, height: int, lo: int)
  {
    p.x - 1 <= q.x <= p.x + 1 && p.y - 1 <= q.y <= p.y + 1 && lo <= q.x < width && lo <= q.y < height
  }

  /** The hash set of processed positions holds exactly the row-major positions of the points in `seen`, all inside the grid. */
  ghost predicate Mirror(processed: set<int>, seen: set<Point>, width: int, height: int)
  {
    (forall p: Point :: p in seen ==> InGrid(p.x, p.y, width, height)) &&
    (forall p: Point :: InGrid(p.x, p.y, width, height) ==> (Index(p.x, p.y, width) in processed <==> p in seen))
  }

  /**
    One search (lines 56-84) in dequeue order: it starts at visit[0], every
    later point is a Step from an earlier one, all are holes outside `before`,
    and every hole a Step away from a visited point is in `before` or visited.
  */
  ghost predicate Search(cells: seq<bool>, width: int, height: int, lo: int, before: set<Point>, visit: seq<Point>)
  {
    |visit| > 0 &&
    (forall j :: 0 <= j < |visit| ==> Hole(cells, width, height, visit[j]) && visit[j] !in before) &&
    (forall i, j :: 0 <= i < j < |visit| ==> visit[i] != visit[j]) &&
    (forall j :: 0 < j < |visit| ==> Reached(visit, j, |visit|, width, height, lo)) &&
    (forall j, q: Point :: 0 <= j < |visit| && Step(visit[j], q, width, height, lo) && Hole(cells, width, height, q) ==>
       q in before || q in visit)
  }

  /** Point visit[j] is a Step from an earlier point among the first `bound`. */
  ghost predicate Reached(visit: seq<Point>, j: int, bound: int, width: int, height: int, lo: int)
    requires 0 <= j < |visit|
  {
    exists i :: 0 <= i < j && i < bound && Step(visit[i], visit[j], width, height, lo)
  }

  /** Point q comes before point p in the column-major order of the seed loops (lines 44-46). */
  predicate ColumnMajorBefore(q: Point, p: Point)
  {
    q.x < p.x || (q.x == p.x && q.y < p.y)
  }

  /** The points of the regions. */
  ghost function Covered(regions: seq<seq<Point>>): set<Point>
  {
    if regions == [] then {}
    else
      var last := regions[|regions| - 1];
      Covered(regions[..|regions| - 1]) + (set p | p in last)
  }

  /**
    The fill after some regions: region k is the search seeded at the first
    hole, in column-major order, outside the earlier regions; a region's cells
    are selected afterwards exactly when the region is smaller than the
    minimum, and every cell outside the regions keeps its value.
  */
  ghost predicate Painted(cells: seq<bool>, filled: seq<bool>, width: int, height: int, lo: int, minimum: int,
                          regions: seq<seq<Point>>)
  {
    0 <= width && |cells| == width * height && |filled| == |cells| &&
    (forall k :: 0 <= k < |regions| ==>
       Search(cells, width, height, lo, Covered(regions[..k]), regions[k]) &&
       forall q: Point :: Hole(cells, width, height, q) && ColumnMajorBefore(q, regions[k][0]) ==> q in Covered(regions[..k])) &&
    (forall k, j :: 0 <= k < |regions| && 0 <= j < |regions[k]| && InGrid(regions[k][j].x, regions[k][j].y, width, height) ==>
       filled[Index(regions[k][j].x, regions[k][j].y, width)] == (|regions[k]| < minimum)) &&
    (forall p: Point :: InGrid(p.x, p.y, width, height) && p !in Covered(regions) ==>
       filled[Index(p.x, p.y, width)] == cells[Index(p.x, p.y, width)])
  }

  /**
    The whole fill: region k is the search seeded at the first hole, in
    column-major order, outside the earlier regions; the regions cover every
    hole; a region's cells are selected afterwards exactly when the region is
    smaller than the minimum, and every other cell keeps its value.
  */
  ghost predicate FilledBy(cells: seq<bool>, filled: seq<bool>, width: int, height: int, lo: int, minimum: int,
                           regions: seq<seq<Point>>)
  {
    Painted(cells, filled, width, height, lo, minimum, regions) &&
    (forall p: Point :: Hole(cells, width, height, p) ==> p in Covered(regions))
  }

  lemma CoveredAppend(regions: seq<seq<Point>>, visit: seq<Point>)
    ensures Covered(regions + [visit]) == Covered(regions) + (set p | p in visit)
  {
    assert (regions + [visit])[..|regions|] == regions;
  }

  /** A covered point lies in one of the regions. */
  lemma {:induction false} CoveredWitness(regions: seq<seq<Point>>, p: Point) returns (k: int, j: int)
    requires p in Covered(regions)
    ensures 0 <= k < |regions| && 0 <= j < |regions[k]| && regions[k][j] == p
    decreases |regions|
  {
    var n := |regions| - 1;
    if p in regions[n] {
      k := n;
      j :| 0 <= j < |regions[n]| && regions[n][j] == p;
    } else {
      k, j := CoveredWitness(regions[..n], p);
    }
  }

  /** The regions before k are covered by the regions before any later index. */
  lemma {:induction false} CoveredGrows(regions: seq<seq<Point>>, k: int, m: int)
    requires 0 <= k < m <= |regions|
    ensures Covered(regions[..k]) + (set p | p in regions[k]) <= Covered(regions[..m])
    decreases m
  {
    assert regions[..m][..m - 1] == regions[..m - 1];
    if k < m - 1 {
      CoveredGrows(regions, k, m - 1);
    } else {
      assert regions[..m - 1] == regions[..k];
    }
  }

  /** How many of the first `count` dequeued points line 62 keeps for filling. */
  function FillLength(count: int, minimum: int): (n: int)
    requires 0 <= count
    ensures 0 <= n <= count
  {
    if minimum <= 0 then 0 else if count <= minimum then count else minimum
  }

  /** The search state: `order` lists the points dequeued or queued so far, all holes outside `before`, without repetition. */
  ghost predicate Frontier(cells: seq<bool>, width: int, height: int, before: set<Point>, order: seq<Point>, seen: set<Point>)
  {
    |order| > 0 &&
    seen == before + (set p | p in order) &&
    (forall j :: 0 <= j < |order| ==> Hole(cells, width, height, order[j]) && order[j] !in before) &&
    (forall i, j :: 0 <= i < j < |order| ==> order[i] != order[j])
  }

  /** Every point after the first was reached by a Step from one of the first `dequeued` points before it. */
  ghost predicate Grown(order: seq<Point>, dequeued: int, width: int, height: int, lo: int)
  {
    forall j :: 0 < j < |order| ==> Reached(order, j, dequeued, width, height, lo)
  }

  /** The holes a Step away from the first `dequeued` points have all been seen. */
  ghost predicate ClosedUpTo(cells: seq<bool>, width: int, height: int, lo: int, order: seq<Point>, dequeued: int, seen: set<Point>)
    requires 0 <= dequeued <= |order|
  {
    forall j, q: Point :: 0 <= j < dequeued && Step(order[j], q, width, height, lo) && Hole(cells, width, height, q) ==> q in seen
  }

  /** The unexplored cells of the dense mask still hold their original value. */
  ghost predicate Untouched(mask: Mask, cells: seq<bool>, before: set<Point>)
    reads mask.data
    requires mask.Valid() && |cells| == mask.data.Length
  {
    forall p: Point :: InGrid(p.x, p.y, mask.width, mask.height) && p !in before ==>
      mask.data[Index(p.x, p.y, mask.width)] == cells[Index(p.x, p.y, mask.width)]
  }

  /** The bookkeeping of a search with `dequeued` points taken off the queue. */
  ghost predicate SearchState(cells: seq<bool>, width: int, height: int, lo: int, before: set<Point>,
                              order: seq<Point>, dequeued: int, seen: set<Point>, processed: set<int>)
  {
    Frontier(cells, width, height, before, order, seen) && Mirror(processed, seen, width, height) &&
    Grown(order, dequeued, width, height, lo)
  }

  /** Lines 66-82: queues and marks every unprocessed unselected point a Step away from the point just dequeued. */
  method VisitNeighbours(mask: Mask, point: Point, queue: seq<Point>, processed: set<int>, lo: int,
                         ghost cells: seq<bool>, ghost before: set<Point>, ghost order: seq<Point>, ghost dequeued: int,
                         ghost seen: set<Point>)
    returns (queue': seq<Point>, processed': set<int>, ghost order': seq<Point>, ghost seen': set<Point>)
    requires mask.Valid() && |cells| == mask.data.Length && 0 <= lo && Untouched(mask, cells, before)
    requires 1 <= dequeued <= |order| && point == order[dequeued - 1] && queue == order[dequeued..]
    requires SearchState(cells, mask.width, mask.height, lo, before, order, dequeued, seen, processed)
    requires ClosedUpTo(cells, mask.width, mask.height, lo, order, dequeued - 1, seen)
    ensures SearchState(cells, mask.width, mask.height, lo, before, order', dequeued, seen', processed')
    ensures |order| <= |order'| && order'[..|order|] == order && queue' == order'[dequeued..]
    ensures ClosedUpTo(cells, mask.width, mask.height, lo, order', dequeued, seen')
    ensures seen <= seen'
  {
    var width := mask.width;
    var height := mask.height;
    queue', processed', order', seen' := queue, processed, order, seen;
    for xAdjacent := point.x - 1 to point.x + 2
      invariant SearchState(cells, width, height, lo, before, order', dequeued, seen', processed')
      invariant |order| <= |order'| && order'[..|order|] == order && queue' == order'[dequeued..]
      invariant seen <= seen'
      invariant forall q: Point :: Step(point, q, width, height, lo) && Hole(cells, width, height, q) && q.x < xAdjacent ==> q in seen'
    {
      ghost var o := order';
      queue', processed', order', seen' :=
        VisitColumn(mask, point, xAdjacent, queue', processed', lo, cells, before, order', dequeued, seen');
      assert order'[..|order|] == o[..|order|];
    }
    forall j, q: Point | 0 <= j < dequeued && Step(order'[j], q, width, height, lo) && Hole(cells, width, height, q)
      ensures q in seen'
    {
      assert order'[j] == order[j];
    }
  }

  /** Lines 68-81: the candidates of one column of the 3x3 block around the point just dequeued. */
  method VisitColumn(mask: Mask, point: Point, xAdjacent: int, queue: seq<Point>, processed: set<int>, lo: int,
                     ghost cells: seq<bool>, ghost before: set<Point>, ghost order: seq<Point>, ghost dequeued: int,
                     ghost seen: set<Point>)
    returns (queue': seq<Point>, processed': set<int>, ghost order': seq<Point>, ghost seen': set<Point>)
    requires mask.Valid() && |cells| == mask.data.Length && 0 <= lo && Untouched(mask, cells, before)
    requires 1 <= dequeued <= |order| && point == order[dequeued - 1] && queue == order[dequeued..]
    requires point.x - 1 <= xAdjacent <= point.x + 1
    requires SearchState(cells, mask.width, mask.height, lo, before, order, dequeued, seen, processed)
    ensures SearchState(cells, mask.width, mask.height, lo, before, order', dequeued, seen', processed')
    ensures |order| <= |order'| && order'[..|order|] == order && queue' == order'[dequeued..]
    ensures seen <= seen'
    ensures forall q: Point :: Step(point, q, mask.width, mask.height, lo) && Hole(cells, mask.width, mask.height, q) && q.x == xAdjacent ==> q in seen'
  {
    queue', processed', order', seen' := queue, processed, order, seen;
    for yAdjacent := point.y - 1 to point.y + 2
      invariant SearchState(cells, mask.width, mask.height, lo, before, order', dequeued, seen', processed')
      invariant |order| <= |order'| && order'[..|order|] == order && queue' == order'[dequeued..]
      invariant seen <= seen'
      invariant forall q: Point :: (Step(point, q, mask.width, mask.height, lo) && Hole(cells, mask.width, mask.height, q) &&
                  q.x == xAdjacent && q.y < yAdjacent) ==> q in seen'
    {
      ghost var o := order';
      queue', processed', order', seen' :=
        ConsiderNeighbour(mask, point, xAdjacent, yAdjacent, queue', processed', lo, cells, before, order', dequeued, seen');
      assert order'[..|order|] == o[..|order|];
    }
  }

  /** Lines 70-79 for one candidate (xAdjacent, yAdjacent) around the point just dequeued. */
  method ConsiderNeighbour(mask: Mask, point: Point, xAdjacent: int, yAdjacent: int, queue: seq<Point>, processed: set<int>, lo: int,
                           ghost cells: seq<bool>, ghost before: set<Point>, ghost order: seq<Point>, ghost dequeued: int,
                           ghost seen: set<Point>)
    returns (queue': seq<Point>, processed': set<int>, ghost order': seq<Point>, ghost seen': set<Point>)
    requires mask.Valid() && |cells| == mask.data.Length && 0 <= lo && Untouched(mask, cells, before)
    requires 1 <= dequeued <= |order| && point == order[dequeued - 1] && queue == order[dequeued..]
    requires point.x - 1 <= xAdjacent <= point.x + 1 && point.y - 1 <= yAdjacent <= point.y + 1
    requires SearchState(cells, mask.width, mask.height, lo, before, order, dequeued, seen, processed)
    ensures SearchState(cells, mask.width, mask.height, lo, before, order', dequeued, seen', processed')
    ensures |order| <= |order'| && order'[..|order|] == order && queue' == order'[dequeued..]
    ensures seen' == seen || seen' == seen + {Point(xAdjacent, yAdjacent)}
    ensures Step(point, Point(xAdjacent, yAdjacent), mask.width, mask.height, lo) && Hole(cells, mask.width, mask.height, Point(xAdjacent, yAdjacent)) ==>
              Point(xAdjacent, yAdjacent) in seen'
  {
    var width := mask.width;
    var height := mask.height;
    queue', processed', order', seen' := queue, processed, order, seen;
    if xAdjacent >= lo && yAdjacent >= lo && xAdjacent < width && yAdjacent < height {
      InGridIntro(xAdjacent, yAdjacent, width, height);
      var adjacentIndex := yAdjacent * width + xAdjacent;
      var adjacentPoint := Point(xAdjacent, yAdjacent);
      if adjacentIndex !in processed && !mask.GetCell(xAdjacent, yAdjacent) {
        AppendState(cells, width, height, lo, before, order, dequeued, seen, processed, adjacentPoint);
        queue' := queue + [adjacentPoint];
        processed' := processed + {adjacentIndex};
        order' := order + [adjacentPoint];
        seen' := seen + {adjacentPoint};
      }
    }
  }

  /** Appending an unseen hole keeps the frontier. */
  lemma AppendFrontier(cells: seq<bool>, width: int, height: int, before: set<Point>, order: seq<Point>,
                       seen: set<Point>, q: Point)
    requires Frontier(cells, width, height, before, order, seen)
    requires Hole(cells, width, height, q) && q !in seen
    ensures Frontier(cells, width, height, before, order + [q], seen + {q})
  {
    var o := order + [q];
    assert (set p | p in o) == (set p | p in order) + {q};
  }

  /** Appending a point a Step away from the last dequeued point keeps every point reached. */
  lemma AppendGrown(order: seq<Point>, dequeued: int, width: int, height: int, lo: int, q: Point)
    requires Grown(order, dequeued, width, height, lo)
    requires 1 <= dequeued <= |order| && Step(order[dequeued - 1], q, width, height, lo)
    ensures Grown(order + [q], dequeued, width, height, lo)
  {
    var o := order + [q];
    forall j | 0 < j < |o|
      ensures Reached(o, j, dequeued, width, height, lo)
    {
      if j == |order| {
        assert Step(o[dequeued - 1], o[j], width, height, lo);
      } else {
        assert Reached(order, j, dequeued, width, height, lo);
        var i :| 0 <= i < j && i < dequeued && Step(order[i], order[j], width, height, lo);
        assert Step(o[i], o[j], width, height, lo);
      }
    }
  }

  /** Taking one more point off the queue keeps every point reached. */
  lemma GrownMore(order: seq<Point>, dequeued: int, more: int, width: int, height: int, lo: int)
    requires Grown(order, dequeued, width, height, lo) && dequeued <= more
    ensures Grown(order, more, width, height, lo)
  {
    forall j | 0 < j < |order|
      ensures Reached(order, j, more, width, height, lo)
    {
      assert Reached(order, j, dequeued, width, height, lo);
    }
  }

  /** Queueing and marking an unseen hole reached from the last dequeued point keeps the bookkeeping. */
  lemma AppendState(cells: seq<bool>, width: int, height: int, lo: int, before: set<Point>,
                    order: seq<Point>, dequeued: int, seen: set<Point>, processed: set<int>, q: Point)
    requires SearchState(cells, width, height, lo, before, order, dequeued, seen, processed)
    requires 1 <= dequeued <= |order| && Step(order[dequeued - 1], q, width, height, lo)
    requires InGrid(q.x, q.y, width, height) && Index(q.x, q.y, width) !in processed && Hole(cells, width, height, q)
    ensures SearchState(cells, width, height, lo, before, order + [q], dequeued, seen + {q}, processed + {Index(q.x, q.y, width)})
    ensures (order + [q])[..|order|] == order && (order + [q])[dequeued..] == order[dequeued..] + [q]
  {
    OthersDistinct(q.x, q.y, width, height);
    AppendFrontier(cells, width, height, before, order, seen, q);
    AppendGrown(order, dequeued, width, height, lo, q);
  }

  /**
    Lines 56-84: the search from one seed. Returns the number of points
    dequeued, the first of them kept for filling (at most minimumHoleSize) and
    the processed positions; the ghost `visit` is the dequeue order.
  */
  method Explore(mask: Mask, seed: Point, processed: set<int>, minimumHoleSize: int, lo: int,
                 ghost cells: seq<bool>, ghost before: set<Point>)
    returns (count: int, fillQueue: seq<Point>, processed': set<int>, ghost visit: seq<Point>)
    requires mask.Valid() && |cells| == mask.data.Length && 0 <= lo && Untouched(mask, cells, before)
    requires Mirror(processed, before, mask.width, mask.height)
    requires Hole(cells, mask.width, mask.height, seed) && seed !in before
    ensures Search(cells, mask.width, mask.height, lo, before, visit) && visit[0] == seed
    ensures Mirror(processed', before + (set p | p in visit), mask.width, mask.height)
    ensures count == |visit| && fillQueue == visit[..FillLength(count, minimumHoleSize)]
  {
    var width := mask.width;
    var height := mask.height;
    var markedQueue := [seed];
    processed' := processed + {Index(seed.x, seed.y, width)};
    ghost var order := [seed];
    ghost var seen := before + {seed};
    StartState(cells, width, height, lo, before, processed, seed);
    count := 0;
    fillQueue := [];
    while markedQueue != []
      invariant 0 <= count <= |order| && 0 < |order| && markedQueue == order[count..] && order[0] == seed
      invariant SearchState(cells, width, height, lo, before, order, count, seen, processed')
      invariant ClosedUpTo(cells, width, height, lo, order, count, seen)
      invariant fillQueue == order[..FillLength(count, minimumHoleSize)]
      decreases GridPoints(width, height) - seen, |markedQueue|
    {
      ghost var s := seen;
      markedQueue, processed', count, fillQueue, order, seen :=
        SearchStep(mask, markedQueue, processed', count, fillQueue, minimumHoleSize, lo, cells, before, order, seen);
    }
    visit := order;
    SearchComplete(cells, width, height, lo, before, order, seen, processed');
  }

  /** One turn of the loop at lines 59-84: dequeue a point, keep it for filling while the count is below the minimum, visit its neighbours. */
  method SearchStep(mask: Mask, markedQueue: seq<Point>, processed: set<int>, count: int, fillQueue: seq<Point>,
                    minimumHoleSize: int, lo: int, ghost cells: seq<bool>, ghost before: set<Point>,
                    ghost order: seq<Point>, ghost seen: set<Point>)
    returns (markedQueue': seq<Point>, processed': set<int>, count': int, fillQueue': seq<Point>,
             ghost order': seq<Point>, ghost seen': set<Point>)
    requires mask.Valid() && |cells| == mask.data.Length && 0 <= lo && Untouched(mask, cells, before)
    requires markedQueue != [] && 0 <= count <= |order| && markedQueue == order[count..]
    requires SearchState(cells, mask.width, mask.height, lo, before, order, count, seen, processed)
    requires ClosedUpTo(cells, mask.width, mask.height, lo, order, count, seen)
    requires fillQueue == order[..FillLength(count, minimumHoleSize)]
    ensures 0 <= count' <= |order'| && markedQueue' == order'[count'..]
    ensures |order| <= |order'| && order'[..|order|] == order
    ensures SearchState(cells, mask.width, mask.height, lo, before, order', count', seen', processed')
    ensures ClosedUpTo(cells, mask.width, mask.height, lo, order', count', seen')
    ensures fillQueue' == order'[..FillLength(count', minimumHoleSize)]
    ensures (seen < seen' && seen' <= GridPoints(mask.width, mask.height)) || (seen' == seen && |markedQueue'| < |markedQueue|)
  {
    var processingPoint := markedQueue[0];
    assert processingPoint == order[count];
    markedQueue' := markedQueue[1..];
    ghost var keep := FillLength(count + 1, minimumHoleSize);
    fillQueue' := fillQueue;
    if count < minimumHoleSize {
      assert order[..count] + [order[count]] == order[..count + 1];
      fillQueue' := fillQueue + [processingPoint];
    }
    assert fillQueue' == order[..keep];
    count' := count + 1;
    GrownMore(order, count, count', mask.width, mask.height, lo);
    markedQueue', processed', order', seen' :=
      VisitNeighbours(mask, processingPoint, markedQueue', processed, lo, cells, before, order, count', seen);
    assert order'[..keep] == order'[..|order|][..keep];
    if |order'| > |order| {
      assert order'[|order|] in seen' - seen;
    }
  }

  lemma StartState(cells: seq<bool>, width: int, height: int, lo: int, before: set<Point>, processed: set<int>, seed: Point)
    requires Mirror(processed, before, width, height) && Hole(cells, width, height, seed) && seed !in before
    ensures SearchState(cells, width, height, lo, before, [seed], 0, before + {seed}, processed + {Index(seed.x, seed.y, width)})
    ensures ClosedUpTo(cells, width, height, lo, [seed], 0, before + {seed})
  {
    OthersDistinct(seed.x, seed.y, width, height);
    assert (set p | p in [seed]) == {seed};
  }

  /** A search whose queue has run empty is closed: it satisfies Search. */
  lemma SearchComplete(cells: seq<bool>, width: int, height: int, lo: int, before: set<Point>,
                       order: seq<Point>, seen: set<Point>, processed: set<int>)
    requires SearchState(cells, width, height, lo, before, order, |order|, seen, processed)
    requires ClosedUpTo(cells, width, height, lo, order, |order|, seen)
    ensures Search(cells, width, height, lo, before, order)
    ensures Mirror(processed, before + (set p | p in order), width, height)
  {
    forall j | 0 < j < |order|
      ensures Reached(order, j, |order|, width, height, lo)
    {
      assert Reached(order, j, |order|, width, height, lo);
    }
    forall j, q: Point | 0 <= j < |order| && Step(order[j], q, width, height, lo) && Hole(cells, width, height, q)
      ensures q in before || q in order
    {
      assert q in seen;
    }
  }

  /** Lines 89-93: every queued point is set to selected; nothing else changes. */
  method Paint(mask: Mask, points: seq<Point>)
    requires mask.Valid() && forall j :: 0 <= j < |points| ==> InGrid(points[j].x, points[j].y, mask.width, mask.height)
    modifies mask.data
    ensures forall p: Point :: InGrid(p.x, p.y, mask.width, mask.height) ==>
              mask.data[Index(p.x, p.y, mask.width)] == (p in points || old(mask.data[Index(p.x, p.y, mask.width)]))
  {
    ghost var before := mask.data[..];
    for n := 0 to |points|
      invariant forall p: Point :: InGrid(p.x, p.y, mask.width, mask.height) ==>
                  mask.data[Index(p.x, p.y, mask.width)] == (p in points[..n] || before[Index(p.x, p.y, mask.width)])
    {
      var fillPoint := points[n];
      assert points[..n + 1] == points[..n] + [fillPoint];
      mask.SetCell(fillPoint.x, fillPoint.y, true);
    }
    assert points[..|points|] == points;
  }

  /** Untouched is the last part of Painted for the dense mask being filled. */
  lemma PaintedUntouched(cells: seq<bool>, mask: Mask, lo: int, minimum: int, regions: seq<seq<Point>>)
    requires mask.Valid() && |cells| == mask.data.Length
    requires Painted(cells, mask.data[..], mask.width, mask.height, lo, minimum, regions)
    ensures Untouched(mask, cells, Covered(regions))
  {
  }

  /**
    Painting a new search region: when it is smaller than the minimum its
    cells become selected, otherwise nothing changes; the fill so far with the
    region appended is again Painted.
  */
  lemma PaintStep(cells: seq<bool>, filled: seq<bool>, filled': seq<bool>, width: int, height: int, lo: int, minimum: int,
                  regions: seq<seq<Point>>, visit: seq<Point>)
    requires Painted(cells, filled, width, height, lo, minimum, regions)
    requires Search(cells, width, height, lo, Covered(regions), visit)
    requires forall q: Point :: Hole(cells, width, height, q) && ColumnMajorBefore(q, visit[0]) ==> q in Covered(regions)
    requires |filled'| == |filled|
    requires forall p: Point :: InGrid(p.x, p.y, width, height) ==>
               filled'[Index(p.x, p.y, width)] == ((|visit| < minimum && p in visit) || filled[Index(p.x, p.y, width)])
    ensures Painted(cells, filled', width, height, lo, minimum, regions + [visit])
  {
    var all: seq<seq<Point>> := regions + [visit];
    CoveredAppend(regions, visit);
    AppendSearches(cells, width, height, lo, regions, visit);
    PaintRegions(cells, filled, filled', width, height, lo, minimum, regions, visit);
    assert forall p: Point :: InGrid(p.x, p.y, width, height) && p !in Covered(all) ==>
             filled'[Index(p.x, p.y, width)] == cells[Index(p.x, p.y, width)];
  }

  /** Each region, the appended one included, is a search seeded at the first hole outside the regions before it. */
  lemma AppendSearches(cells: seq<bool>, width: int, height: int, lo: int, regions: seq<seq<Point>>, visit: seq<Point>)
    requires forall k :: 0 <= k < |regions| ==>
               Search(cells, width, height, lo, Covered(regions[..k]), regions[k]) &&
               forall q: Point :: Hole(cells, width, height, q) && ColumnMajorBefore(q, regions[k][0]) ==> q in Covered(regions[..k])
    requires Search(cells, width, height, lo, Covered(regions), visit)
    requires forall q: Point :: Hole(cells, width, height, q) && ColumnMajorBefore(q, visit[0]) ==> q in Covered(regions)
    ensures var all := regions + [visit];
            forall k :: 0 <= k < |all| ==>
              Search(cells, width, height, lo, Covered(all[..k]), all[k]) &&
              forall q: Point :: Hole(cells, width, height, q) && ColumnMajorBefore(q, all[k][0]) ==> q in Covered(all[..k])
  {
    var all: seq<seq<Point>> := regions + [visit];
    forall k | 0 <= k < |all|
      ensures Search(cells, width, height, lo, Covered(all[..k]), all[k])
      ensures forall q: Point :: Hole(cells, width, height, q) && ColumnMajorBefore(q, all[k][0]) ==> q in Covered(all[..k])
    {
      if k < |regions| {
        assert all[..k] == regions[..k];
      } else {
        assert all[..k] == regions;
      }
    }
  }

  /** After painting, each region's cells are selected exactly when the region is smaller than the minimum. */
  lemma PaintRegions(cells: seq<bool>, filled: seq<bool>, filled': seq<bool>, width: int, height: int, lo: int, minimum: int,
                     regions: seq<seq<Point>>, visit: seq<Point>)
    requires Painted(cells, filled, width, height, lo, minimum, regions)
    requires Search(cells, width, height, lo, Covered(regions), visit)
    requires |filled'| == |filled|
    requires forall p: Point :: InGrid(p.x, p.y, width, height) ==>
               filled'[Index(p.x, p.y, width)] == ((|visit| < minimum && p in visit) || filled[Index(p.x, p.y, width)])
    ensures var all := regions + [visit];
            forall k, j :: 0 <= k < |all| && 0 <= j < |all[k]| && InGrid(all[k][j].x, all[k][j].y, width, height) ==>
              filled'[Index(all[k][j].x, all[k][j].y, width)] == (|all[k]| < minimum)
  {
    var all: seq<seq<Point>> := regions + [visit];
    forall k: int, j: int | 0 <= k < |all| && 0 <= j < |all[k]| && InGrid(all[k][j].x, all[k][j].y, width, height)
      ensures filled'[Index(all[k][j].x, all[k][j].y, width)] == (|all[k]| < minimum)
    {
      var p := all[k][j];
      if k < |regions| {
        CoveredGrows(regions, k, |regions|);
        assert regions[..|regions|] == regions;
        assert p in Covered(regions);
        assert p !in visit;
      } else {
        assert p == visit[j] && p !in Covered(regions);
      }
    }
  }

  /**
    Lines 46-78 for one seed position (x, y) of the seed loops: when the cell
    is unselected and not processed, search from it, paint the region if it is
    smaller than the minimum, and record the region.
  */
  method SeedAt(blobMask: IMask, mask: Mask, x: int, y: int, processed: set<int>, minimumHoleSize: int, lo: int,
                ghost cells: seq<bool>, ghost regions: seq<seq<Point>>)
    returns (processed': set<int>, ghost regions': seq<seq<Point>>)
    requires blobMask.Valid() && mask.Valid() && 0 <= lo && |cells| == mask.data.Length
    requires mask.width == blobMask.Width() && mask.height == blobMask.Height()
    requires blobMask.Dense? ==> blobMask.mask == mask
    requires !blobMask.Dense? ==> mask.data !in blobMask.Repr() && blobMask.Cells() == cells
    requires InGrid(x, y, mask.width, mask.height)
    requires Painted(cells, mask.data[..], mask.width, mask.height, lo, minimumHoleSize, regions)
    requires Mirror(processed, Covered(regions), mask.width, mask.height)
    requires forall q: Point :: Hole(cells, mask.width, mask.height, q) && ColumnMajorBefore(q, Point(x, y)) ==> q in Covered(regions)
    modifies mask.data
    ensures Painted(cells, mask.data[..], mask.width, mask.height, lo, minimumHoleSize, regions')
    ensures Mirror(processed', Covered(regions'), mask.width, mask.height)
    ensures forall q: Point :: Hole(cells, mask.width, mask.height, q) && (ColumnMajorBefore(q, Point(x, y)) || q == Point(x, y)) ==>
              q in Covered(regions')
  {
    var width := mask.width;
    var height := mask.height;
    var isNotMarked := ReadSeedCell(blobMask, mask, x, y, cells);
    var point := Point(x, y);
    var index := y * width + x;
    PaintedUntouched(cells, mask, lo, minimumHoleSize, regions);
    if isNotMarked && index !in processed {
      processed', regions' := GrowRegion(mask, point, processed, minimumHoleSize, lo, cells, regions);
    } else {
      processed', regions' := processed, regions;
    }
  }

  /**
    Line 49: the blob mask's cell at (x, y) is unselected. A view over another
    array reads `cells`; the dense mask being filled reads its current bits.
  */
  method ReadSeedCell(blobMask: IMask, mask: Mask, x: int, y: int, ghost cells: seq<bool>) returns (isNotMarked: bool)
    requires blobMask.Valid() && mask.Valid() && |cells| == mask.data.Length
    requires mask.width == blobMask.Width() && mask.height == blobMask.Height()
    requires blobMask.Dense? ==> blobMask.mask == mask
    requires !blobMask.Dense? ==> blobMask.Cells() == cells
    requires InGrid(x, y, mask.width, mask.height)
    ensures blobMask.Dense? ==> isNotMarked == !mask.data[Index(x, y, mask.width)]
    ensures !blobMask.Dense? ==> isNotMarked == Hole(cells, mask.width, mask.height, Point(x, y))
  {
    isNotMarked := !blobMask.GetCell(x, y);
    if !blobMask.Dense? {
      assert blobMask.Cells()[Index(x, y, mask.width)] == blobMask.GetCell(x, y);
    }
  }

  /**
    Lines 54-97 for a seed hole no earlier search reached: search from it,
    paint the region if it is smaller than the minimum, and record the region.
  */
  method GrowRegion(mask: Mask, point: Point, processed: set<int>, minimumHoleSize: int, lo: int,
                    ghost cells: seq<bool>, ghost regions: seq<seq<Point>>)
    returns (processed': set<int>, ghost regions': seq<seq<Point>>)
    requires mask.Valid() && 0 <= lo && |cells| == mask.data.Length
    requires Painted(cells, mask.data[..], mask.width, mask.height, lo, minimumHoleSize, regions)
    requires Mirror(processed, Covered(regions), mask.width, mask.height)
    requires Hole(cells, mask.width, mask.height, point) && point !in Covered(regions)
    requires forall q: Point :: Hole(cells, mask.width, mask.height, q) && ColumnMajorBefore(q, point) ==> q in Covered(regions)
    modifies mask.data
    ensures Painted(cells, mask.data[..], mask.width, mask.height, lo, minimumHoleSize, regions')
    ensures Mirror(processed', Covered(regions'), mask.width, mask.height)
    ensures Covered(regions) <= Covered(regions') && point in Covered(regions')
  {
    var width := mask.width;
    var height := mask.height;
    ghost var before := Covered(regions);
    PaintedUntouched(cells, mask, lo, minimumHoleSize, regions);
    var count, fillQueue;
    ghost var visit;
    count, fillQueue, processed', visit := Explore(mask, point, processed, minimumHoleSize, lo, cells, before);
    ghost var filled := mask.data[..];
    assert forall j :: 0 <= j < |visit| ==> InGrid(visit[j].x, visit[j].y, width, height);
    if count < minimumHoleSize {
      assert fillQueue == visit;
      Paint(mask, fillQueue);
    }
    PaintStep(cells, filled, mask.data[..], width, height, lo, minimumHoleSize, regions, visit);
    regions' := regions + [visit];
    CoveredAppend(regions, visit);
  }

  /**
    Lines 37-97 on the dense mask that is filled: the seed loops visit the
    grid column by column; on return the mask holds a fill of its original
    cells as FilledBy describes.
  */
  method FillWith(blobMask: IMask, mask: Mask, minimumHoleSize: int, lo: int) returns (ghost regions: seq<seq<Point>>)
    requires blobMask.Valid() && mask.Valid() && 0 <= lo
    requires mask.width == blobMask.Width() && mask.height == blobMask.Height() && mask.data[..] == blobMask.Cells()
    requires blobMask.Dense? ==> blobMask.mask == mask
    requires !blobMask.Dense? ==> mask.data !in blobMask.Repr()
    modifies mask.data
    ensures FilledBy(old(mask.data[..]), mask.data[..], mask.width, mask.height, lo, minimumHoleSize, regions)
  {
    var width := mask.width;
    var height := mask.height;
    ghost var cells := mask.data[..];
    var processed: set<int> := {};
    regions := [];
    for x := 0 to width
      invariant Painted(cells, mask.data[..], width, height, lo, minimumHoleSize, regions)
      invariant Mirror(processed, Covered(regions), width, height)
      invariant !blobMask.Dense? ==> blobMask.Cells() == cells
      invariant forall q: Point :: Hole(cells, width, height, q) && q.x < x ==> q in Covered(regions)
    {
      for y := 0 to height
        invariant Painted(cells, mask.data[..], width, height, lo, minimumHoleSize, regions)
        invariant Mirror(processed, Covered(regions), width, height)
        invariant !blobMask.Dense? ==> blobMask.Cells() == cells
        invariant forall q: Point :: Hole(cells, width, height, q) && ColumnMajorBefore(q, Point(x, y)) ==> q in Covered(regions)
      {
        InGridIntro(x, y, width, height);
        processed, regions := SeedAt(blobMask, mask, x, y, processed, minimumHoleSize, lo, cells, regions);
      }
      assert forall q: Point :: Hole(cells, width, height, q) && q.x == x ==> ColumnMajorBefore(q, Point(x, height));
    }
  }

  /**
    FillBlobMask (lines 26-101): a missing mask is rejected. A dense mask is
    filled in place, with the neighbour bound of line 70 as written (column
    and row at least 1). Any other mask is copied into a fresh dense mask
    (line 38) and the copy is filled; the copy is not returned, so the mask
    passed in keeps its cells.
  */
  method FillBlobMask(blobMask: Option<IMask>, minimumHoleSize: int)
    returns (outcome: Outcome, ghost filled: seq<bool>, ghost regions: seq<seq<Point>>)
    requires blobMask.Some? ==> blobMask.value.Valid()
    modifies if blobMask.Some? && blobMask.value.Dense? then {blobMask.value.mask.data} else {}
    ensures blobMask.None? ==> outcome == Fail(ArgumentNull)
    ensures blobMask.Some? ==>
              outcome == Pass &&
              FilledBy(old(blobMask.value.Cells()), filled, blobMask.value.Width(), blobMask.value.Height(), 1, minimumHoleSize, regions)
    ensures blobMask.Some? && blobMask.value.Dense? ==> blobMask.value.Cells() == filled
    ensures blobMask.Some? && !blobMask.value.Dense? ==> blobMask.value.Cells() == old(blobMask.value.Cells())
  {
    outcome, filled, regions := Fill(blobMask, minimumHoleSize, 1);
  }

  /** FillBlobMask with the neighbour bound of line 70 corrected to column and row at least 0. */
  method FillBlobMaskCorrected(blobMask: Option<IMask>, minimumHoleSize: int)
    returns (outcome: Outcome, ghost filled: seq<bool>, ghost regions: seq<seq<Point>>)
    requires blobMask.Some? ==> blobMask.value.Valid()
    modifies if blobMask.Some? && blobMask.value.Dense? then {blobMask.value.mask.data} else {}
    ensures blobMask.None? ==> outcome == Fail(ArgumentNull)
    ensures blobMask.Some? ==>
              outcome == Pass &&
              FilledBy(old(blobMask.value.Cells()), filled, blobMask.value.Width(), blobMask.value.Height(), 0, minimumHoleSize, regions)
    ensures blobMask.Some? && blobMask.value.Dense? ==> blobMask.value.Cells() == filled
    ensures blobMask.Some? && !blobMask.value.Dense? ==> blobMask.value.Cells() == old(blobMask.value.Cells())
  {
    outcome, filled, regions := Fill(blobMask, minimumHoleSize, 0);
  }

  /** The body of FillBlobMask for a given neighbour bound. */
  method Fill(blobMask: Option<IMask>, minimumHoleSize: int, lo: int)
    returns (outcome: Outcome, ghost filled: seq<bool>, ghost regions: seq<seq<Point>>)
    requires 0 <= lo
    requires blobMask.Some? ==> blobMask.value.Valid()
    modifies if blobMask.Some? && blobMask.value.Dense? then {blobMask.value.mask.data} else {}
    ensures blobMask.None? ==> outcome == Fail(ArgumentNull)
    ensures blobMask.Some? ==>
              outcome == Pass &&
              FilledBy(old(blobMask.value.Cells()), filled, blobMask.value.Width(), blobMask.value.Height(), lo, minimumHoleSize, regions)
    ensures blobMask.Some? && blobMask.value.Dense? ==> blobMask.value.Cells() == filled
    ensures blobMask.Some? && !blobMask.value.Dense? ==> blobMask.value.Cells() == old(blobMask.value.Cells())
  {
    if blobMask.None? {
      return Fail(ArgumentNull), [], [];
    }
    var source := blobMask.value;
    outcome := Pass;
    if source.Dense? {
      var mask := source.mask;
      regions := FillWith(source, mask, minimumHoleSize, lo);
      filled := mask.data[..];
    } else {
      ghost var cells := source.Cells();
      var mask := CopyToMask(source);
      regions := FillWith(source, mask, minimumHoleSize, lo);
      filled := mask.data[..];
      assert source.Cells() == cells;
    }
  }

  /** A covered point is an unselected cell: regions consist of holes. */
  lemma CoveredHole(cells: seq<bool>, filled: seq<bool>, width: int, height: int, lo: int, minimum: int,
                    regions: seq<seq<Point>>, p: Point) returns (k: int, j: int)
    requires Painted(cells, filled, width, height, lo, minimum, regions) && p in Covered(regions)
    ensures 0 <= k < |regions| && 0 <= j < |regions[k]| && regions[k][j] == p
    ensures Hole(cells, width, height, p) && filled[Index(p.x, p.y, width)] == (|regions[k]| < minimum)
  {
    k, j := CoveredWitness(regions, p);
    assert Search(cells, width, height, lo, Covered(regions[..k]), regions[k]);
  }

  /** Filling only ever selects cells: a selected cell stays selected, and a changed cell lies in a region smaller than the minimum. */
  lemma FillOnlySelects(cells: seq<bool>, filled: seq<bool>, width: int, height: int, lo: int, minimum: int,
                        regions: seq<seq<Point>>)
    requires FilledBy(cells, filled, width, height, lo, minimum, regions)
    ensures |filled| == |cells|
    ensures forall i :: 0 <= i < |cells| && cells[i] ==> filled[i]
    ensures forall i :: 0 <= i < |cells| && filled[i] != cells[i] ==>
              exists k, j :: 0 <= k < |regions| && 0 <= j < |regions[k]| &&
                Index(regions[k][j].x, regions[k][j].y, width) == i && |regions[k]| < minimum
  {
    forall i | 0 <= i < |cells| && (cells[i] || filled[i] != cells[i])
      ensures cells[i] ==> filled[i]
      ensures filled[i] != cells[i] ==>
                exists k, j :: 0 <= k < |regions| && 0 <= j < |regions[k]| &&
                  Index(regions[k][j].x, regions[k][j].y, width) == i && |regions[k]| < minimum
    {
      var c, r := CellOf(i, width, height);
      var p := Point(c, r);
      if p in Covered(regions) {
        var k, j := CoveredHole(cells, filled, width, height, lo, minimum, regions, p);
      }
    }
  }

  /** With a minimum hole size of at most 1 no region is small enough, so nothing changes. */
  lemma NoFillBelowTwo(cells: seq<bool>, filled: seq<bool>, width: int, height: int, lo: int, minimum: int,
                       regions: seq<seq<Point>>)
    requires FilledBy(cells, filled, width, height, lo, minimum, regions) && minimum <= 1
    ensures filled == cells
  {
    forall c, r | InGrid(c, r, width, height)
      ensures filled[Index(c, r, width)] == cells[Index(c, r, width)]
    {
      var p := Point(c, r);
      if p in Covered(regions) {
        var k, j := CoveredHole(cells, filled, width, height, lo, minimum, regions, p);
        assert Search(cells, width, height, lo, Covered(regions[..k]), regions[k]);
      }
    }
    CellwiseEqual(filled, cells, width, height);
  }

  /** Without the bound of line 70 a Step goes both ways. */
  lemma StepSymmetric(p: Point, q: Point, width: int, height: int)
    requires Step(p, q, width, height, 0) && 0 <= p.x < width && 0 <= p.y < height
    ensures Step(q, p, width, height, 0)
  {
  }

  /**
    With the corrected bound each region is closed under 8-adjacency: an
    unselected cell next to a region belongs to that region. So the regions
    are the 8-connected holes, and a hole is filled exactly when it is smaller
    than the minimum.
  */
  lemma CorrectedRegionsClosed(cells: seq<bool>, filled: seq<bool>, width: int, height: int, minimum: int,
                               regions: seq<seq<Point>>, k: int, j: int, q: Point)
    requires Painted(cells, filled, width, height, 0, minimum, regions)
    requires 0 <= k < |regions| && 0 <= j < |regions[k]|
    requires Step(regions[k][j], q, width, height, 0) && Hole(cells, width, height, q)
    ensures q in regions[k]
  {
    var p := regions[k][j];
    assert Search(cells, width, height, 0, Covered(regions[..k]), regions[k]);
    if q !in regions[k] {
      assert q in Covered(regions[..k]);
      var k', j' := CoveredWitness(regions[..k], q);
      assert regions[..k][k'] == regions[k'] && regions[..k][..k'] == regions[..k'];
      assert Search(cells, width, height, 0, Covered(regions[..k']), regions[k']);
      StepSymmetric(p, q, width, height);
      assert p in Covered(regions[..k']) || p in regions[k'];
      CoveredGrows(regions, k', k);
      assert false;
    }
  }

  /** A search in a grid one row high under the bound as written never leaves its seed. */
  lemma AsWrittenSingleRegions(cells: seq<bool>, filled: seq<bool>, width: int, minimum: int,
                               regions: seq<seq<Point>>, k: int)
    requires Painted(cells, filled, width, 1, 1, minimum, regions) && 0 <= k < |regions|
    ensures |regions[k]| == 1
  {
    assert Search(cells, width, 1, 1, Covered(regions[..k]), regions[k]);
    SearchInOneRow(cells, width, Covered(regions[..k]), regions[k]);
  }

  lemma SearchInOneRow(cells: seq<bool>, width: int, before: set<Point>, visit: seq<Point>)
    requires Search(cells, width, 1, 1, before, visit)
    ensures |visit| == 1
  {
    if |visit| > 1 {
      NotReachedInOneRow(visit, 1, |visit|, width);
      assert false;
    }
  }

  /** Under the bound as written no Step reaches row 0, the only row of a grid one row high. */
  lemma NotReachedInOneRow(visit: seq<Point>, j: int, bound: int, width: int)
    requires 0 <= j < |visit|
    ensures !Reached(visit, j, bound, width, 1, 1)
  {
  }

  /**
    Counterexample to the bound of line 70 as written: two unselected cells
    side by side in a 2x1 grid form one hole of two cells, not smaller than a
    minimum of 2, yet the search from (0, 0) cannot step to (1, 0) (its row 0
    fails the bound), so each cell is a region of one and both are filled.
  */
  lemma AsWrittenFillsWideHole(filled: seq<bool>, regions: seq<seq<Point>>)
    requires FilledBy([false, false], filled, 2, 1, 1, 2, regions)
    ensures filled == [true, true]
  {
    var cells := [false, false];
    forall c | 0 <= c < 2
      ensures filled[c] == true
    {
      var p := Point(c, 0);
      assert Index(c, 0, 2) == c;
      assert Hole(cells, 2, 1, p);
      var k, j := CoveredHole(cells, filled, 2, 1, 1, 2, regions, p);
      AsWrittenSingleRegions(cells, filled, 2, 2, regions, k);
    }
  }

  /** With the corrected bound the same 2x1 hole is one region of two cells, and nothing is filled. */
  lemma CorrectedKeepsWideHole(filled: seq<bool>, regions: seq<seq<Point>>)
    requires FilledBy([false, false], filled, 2, 1, 0, 2, regions)
    ensures filled == [false, false]
  {
    var cells := [false, false];
    forall c | 0 <= c < 2
      ensures filled[c] == false
    {
      var p := Point(c, 0);
      var q := Point(1 - c, 0);
      assert Index(c, 0, 2) == c && Index(1 - c, 0, 2) == 1 - c;
      assert Hole(cells, 2, 1, p) && Hole(cells, 2, 1, q);
      var k, j := CoveredHole(cells, filled, 2, 1, 0, 2, regions, p);
      CorrectedRegionsClosed(cells, filled, 2, 1, 2, regions, k, j, q);
      var j' :| 0 <= j' < |regions[k]| && regions[k][j'] == q;
      assert j != j';
    }
  }
}
